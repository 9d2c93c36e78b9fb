/** The reordering pass of the spectrum analyser (src/analog.cpp:8-30).

    The samples go into the odd slots of a work array of twice their number and are then put into
    bit-reversed order in place.  The reversed index is never computed: it is kept up to date by a
    counter whose carry runs from the top bit down.  The sample count is any power of two, where the
    firmware fixes it to 64; the work array holds floats there and reals here, which are only moved. */
module Analog {
  import opened Arithmetic

  /** The b low bits of p in reverse order. */
  function Reversed(p: nat, b: nat): nat
    decreases b
  {
    if b == 0 then 0 else (if p % 2 == 1 then Power2(b - 1) else 0) + Reversed(p / 2, b - 1)
  }

  /** Adds one at bit h and lets the carry run downwards: the inner loop of the reordering. */
  function ReversedIncrement(r: nat, h: nat): nat
    decreases h
  {
    if h >= 1 && r >= h then ReversedIncrement(r - h, h / 2) else r + h
  }

  lemma {:induction false} ReversedBound(p: nat, b: nat)
    ensures Reversed(p, b) < Power2(b)
    decreases b
  {
    if b > 0 {
      ReversedBound(p / 2, b - 1);
    }
  }

  lemma {:induction false} CarryDown(r: nat, b: nat)
    requires b > 1
    ensures ReversedIncrement(Power2(b - 1) + r, Power2(b - 1)) == ReversedIncrement(r, Power2(b - 2))
  {
    assert Power2(b - 1) / 2 == Power2(b - 2);
  }

  lemma {:induction false} IncrementEven(p: nat, b: nat)
    requires b > 0 && p < Power2(b) && p % 2 == 0
    ensures ReversedIncrement(Reversed(p, b), Power2(b - 1)) == Reversed(p + 1, b)
  {
    ReversedBound(p / 2, b - 1);
    assert (p + 1) / 2 == p / 2;
  }

  lemma {:induction false} IncrementOdd(p: nat, b: nat)
    requires b > 1 && p % 2 == 1
    requires ReversedIncrement(Reversed(p / 2, b - 1), Power2(b - 2)) == Reversed(p / 2 + 1, b - 1)
    ensures ReversedIncrement(Reversed(p, b), Power2(b - 1)) == Reversed(p + 1, b)
  {
    assert (p + 1) / 2 == p / 2 + 1;
    CarryDown(Reversed(p / 2, b - 1), b);
  }

  lemma {:induction false} HalfBelow(p: nat, b: nat)
    requires b > 0 && p + 1 < Power2(b) && p % 2 == 1
    ensures b > 1 && p / 2 + 1 < Power2(b - 1)
  {
    assert Power2(b) == 2 * Power2(b - 1);
  }

  /** The carry counter walks through the reversed numbers. */
  lemma {:induction false} IncrementReversed(p: nat, b: nat)
    requires b > 0 && p + 1 < Power2(b)
    ensures ReversedIncrement(Reversed(p, b), Power2(b - 1)) == Reversed(p + 1, b)
    decreases b
  {
    if p % 2 == 0 {
      IncrementEven(p, b);
    } else {
      HalfBelow(p, b);
      IncrementReversed(p / 2, b - 1);
      IncrementOdd(p, b);
    }
  }

  /** The same number with its bits taken from the top. */
  lemma {:induction false} ReversedFromTop(p: nat, b: nat)
    requires b > 0
    ensures p < Power2(b - 1) ==> Reversed(p, b) == 2 * Reversed(p, b - 1)
    ensures Power2(b - 1) <= p < Power2(b) ==> Reversed(p, b) == 2 * Reversed(p - Power2(b - 1), b - 1) + 1
    decreases b
  {
    if b > 1 {
      ReversedFromTop(p / 2, b - 1);
      var h := Power2(b - 2);
      assert Power2(b - 1) == 2 * h;
      if p >= 2 * h {
        assert (p - 2 * h) / 2 == p / 2 - h && (p - 2 * h) % 2 == p % 2;
      }
    }
  }

  lemma {:induction false} ReversedTwice(p: nat, b: nat)
    requires p < Power2(b)
    ensures Reversed(Reversed(p, b), b) == p
    decreases b
  {
    if b > 0 {
      var r := Reversed(p / 2, b - 1);
      ReversedBound(p / 2, b - 1);
      ReversedTwice(p / 2, b - 1);
      ReversedFromTop(r, b);
      ReversedFromTop(Power2(b - 1) + r, b);
    }
  }

  /** Bit i of p, counted from the low end. */
  predicate Bit(p: nat, i: nat) {
    if i == 0 then p % 2 == 1 else Bit(p / 2, i - 1)
  }

  /** Reversed means what its name says. */
  lemma {:induction false} ReversedBits(p: nat, b: nat, i: nat)
    requires p < Power2(b) && i < b
    ensures Bit(Reversed(p, b), i) == Bit(p, b - 1 - i)
    decreases b
  {
    ReversedBound(p / 2, b - 1);
    if i == b - 1 {
      TopBit(Reversed(p, b), b - 1);
    } else {
      ReversedBits(p / 2, b - 1, i);
      LowBits(Reversed(p / 2, b - 1), p % 2, b - 1, i);
    }
  }

  lemma {:induction false} TopBit(x: nat, n: nat)
    requires x < Power2(n + 1)
    ensures Bit(x, n) == (x >= Power2(n))
    decreases n
  {
    if n > 0 {
      TopBit(x / 2, n - 1);
    }
  }

  lemma {:induction false} LowBits(x: nat, d: nat, n: nat, i: nat)
    requires i < n
    ensures Bit(d * Power2(n) + x, i) == Bit(x, i)
    decreases i
  {
    var y := d * Power2(n) + x;
    assert y == 2 * (d * Power2(n - 1)) + x;
    if i > 0 {
      LowBits(x / 2, d, n - 1, i - 1);
    }
  }

  lemma {:induction false} ReversedZero(b: nat)
    ensures Reversed(0, b) == 0
    decreases b
  {
    if b > 0 {
      ReversedZero(b - 1);
    }
  }

  lemma {:induction false} ReversedOnes(b: nat)
    ensures Reversed(Power2(b) - 1, b) == Power2(b) - 1
    decreases b
  {
    if b > 0 {
      ReversedOnes(b - 1);
      assert (Power2(b) - 1) / 2 == Power2(b - 1) - 1 && (Power2(b) - 1) % 2 == 1;
    }
  }

  /** The last slot is its own mirror image, so no swap reaches past the end. */
  lemma {:induction false} LastIsFixed(p: nat, b: nat)
    requires p < Power2(b)
    ensures Reversed(p, b) < Power2(b)
    ensures p < Reversed(p, b) ==> Reversed(p, b) < Power2(b) - 1
  {
    ReversedBound(p, b);
    ReversedOnes(b);
    ReversedTwice(p, b);
  }

  lemma {:induction false} NextReversed(p: nat, b: nat)
    requires b > 0 && p < Power2(b)
    ensures Reversed(p, b) < Power2(b)
    ensures p + 1 < Power2(b) ==> Reversed(p, b) < Power2(b) - 1
    ensures p + 1 < Power2(b) ==> ReversedIncrement(Reversed(p, b), Power2(b - 1)) == Reversed(p + 1, b)
  {
    ReversedBound(p, b);
    if p + 1 < Power2(b) {
      IncrementReversed(p, b);
      ReversedOnes(b);
      ReversedTwice(p, b);
    }
  }

  /** The sample that slot k holds when the slots below p have been visited. */
  function Holds(k: nat, p: nat, b: nat): nat {
    var r := Reversed(k, b);
    if k < p || r < p then r else k
  }

  /** Where the sample that slot k holds after slots p and r have been swapped was before. */
  function From(k: nat, p: nat, r: nat): nat {
    if r > p && k == p then r else if r > p && k == r then p else k
  }

  /** Visiting slot p either swaps it with its mirror image or finds the swap already made. */
  lemma {:induction false} Visit(k: nat, p: nat, b: nat)
    requires k < Power2(b) && p < Power2(b)
    ensures Holds(k, p + 1, b) == Holds(From(k, p, Reversed(p, b)), p, b)
  {
    ReversedTwice(k, b);
    ReversedTwice(p, b);
    ReversedBound(k, b);
    ReversedBound(p, b);
  }

  /** The packing loop. */
  method Pack(AVal: seq<int>) returns (Tmvl: array<real>)
    ensures fresh(Tmvl) && Tmvl.Length == 2 * |AVal|
    ensures forall k: nat :: k < |AVal| ==> Tmvl[2 * k + 1] == AVal[k] as real && Tmvl[2 * k] == 0.0
  {
    Tmvl := new real[|AVal| * 2];
    var i := 0;
    while i < |AVal| * 2
      invariant i % 2 == 0 && i <= |AVal| * 2
      invariant forall k: nat :: 2 * k < i ==> Tmvl[2 * k + 1] == AVal[k] as real && Tmvl[2 * k] == 0.0
    {
      Tmvl[i] := 0.0;
      Tmvl[i + 1] := AVal[i / 2] as real;
      i := i + 2;
    }
  }

  /** The carry of the reversed counter: the inner loop of the reordering. */
  method Carry(j0: nat, b: nat) returns (j: nat)
    requires b > 0 && j0 % 2 == 1 && j0 < 2 * Power2(b)
    ensures j0 < 2 * Power2(b) - 1 ==> j == 2 * ReversedIncrement(j0 / 2, Power2(b - 1)) + 1
  {
    j := j0;
    var m := Power2(b);
    ghost var c: nat, r, h := b, j0 / 2, Power2(b - 1);   // while c > 0, j is 2 * r + 1 and m is 2 * h
    while m >= 2 && j > m
      invariant c <= b && m == Power2(c)
      invariant c > 0 ==> j == 2 * r + 1 && m == 2 * h && 0 <= r < m
      invariant c > 0 ==> (r == m - 1 <==> j0 == 2 * Power2(b) - 1)
      invariant c > 0 ==> ReversedIncrement(r, h) == ReversedIncrement(j0 / 2, Power2(b - 1))
      invariant c == 0 ==> j0 == 2 * Power2(b) - 1
      decreases m
    {
      assert h / 2 == if c > 1 then Power2(c - 2) else 0;
      j := j - m;
      m := m / 2;
      c, r, h := c - 1, r - h, h / 2;
    }
    j := j + m;
  }

  /** Complex number k of the work array when those below p have been visited. */
  ghost predicate SlotHolds(t: seq<real>, AVal: seq<int>, p: nat, b: nat, k: nat)
    requires 2 * k + 1 < |t|
  {
    t[2 * k] == 0.0 && Holds(k, p, b) < |AVal| && t[2 * k + 1] == AVal[Holds(k, p, b)] as real
  }

  ghost predicate Visited(t: seq<real>, AVal: seq<int>, p: nat, b: nat) {
    && |t| == 2 * |AVal| && |AVal| == Power2(b)
    && forall k: nat :: k < |AVal| ==> SlotHolds(t, AVal, p, b, k)
  }

  /** The two-slot swap of complex numbers i and j, made only when j is still ahead. */
  function Swapped(t: seq<real>, i: nat, j: nat): (u: seq<real>)
    requires i % 2 == j % 2 == 1 && (j > i ==> j + 1 < |t|)
    ensures |u| == |t|
  {
    if j > i then t[i := t[j]][j := t[i]][i + 1 := t[j + 1]][j + 1 := t[i + 1]] else t
  }

  method Swap(Tmvl: array<real>, i: nat, j: nat)
    requires i % 2 == j % 2 == 1 && (j > i ==> j + 1 < Tmvl.Length)
    modifies Tmvl
    ensures Tmvl[..] == Swapped(old(Tmvl[..]), i, j)
  {
    if j > i {
      var Tmpr := Tmvl[i];
      Tmvl[i] := Tmvl[j];
      Tmvl[j] := Tmpr;
      Tmpr := Tmvl[i + 1];
      Tmvl[i + 1] := Tmvl[j + 1];
      Tmvl[j + 1] := Tmpr;
    }
  }

  /** u is t with the complex numbers p and r swapped, if r is still ahead. */
  ghost predicate SlotsSwapped(t: seq<real>, u: seq<real>, p: nat, r: nat)
    requires |t| % 2 == 0 && 2 * p < |t| && 2 * r < |t|
  {
    |u| == |t| &&
    forall k: nat :: 2 * k < |t| ==> u[2 * k + 1] == t[2 * From(k, p, r) + 1] && u[2 * k] == 0.0
  }

  ghost predicate ImaginaryZero(t: seq<real>) {
    forall k: nat :: 2 * k < |t| ==> t[2 * k] == 0.0
  }

  lemma {:induction false} SwappedSlots(t: seq<real>, p: nat, r: nat)
    requires |t| % 2 == 0 && 2 * p < |t| && 2 * r < |t| && (r > p ==> 2 * r + 2 < |t|) && ImaginaryZero(t)
    ensures SlotsSwapped(t, Swapped(t, 2 * p + 1, 2 * r + 1), p, r)
  {
    assert r > p ==> t[2 * (p + 1)] == t[2 * (r + 1)] == 0.0;
  }

  lemma {:induction false} VisitedZero(t: seq<real>, AVal: seq<int>, p: nat, b: nat)
    requires Visited(t, AVal, p, b)
    ensures ImaginaryZero(t)
  {
    forall k: nat | 2 * k < |t| ensures t[2 * k] == 0.0 {
      assert SlotHolds(t, AVal, p, b, k);
    }
  }

  lemma {:induction false} VisitAll(t: seq<real>, u: seq<real>, AVal: seq<int>, p: nat, b: nat)
    requires p < |AVal| && Visited(t, AVal, p, b) && Reversed(p, b) < |AVal|
    requires SlotsSwapped(t, u, p, Reversed(p, b))
    ensures Visited(u, AVal, p + 1, b)
  {
    var r, q := Reversed(p, b), p + 1;
    forall k: nat | k < |AVal| ensures SlotHolds(u, AVal, q, b, k) {
      assert SlotHolds(t, AVal, p, b, From(k, p, r));
      Visit(k, p, b);
    }
  }

  method VisitSlot(Tmvl: array<real>, i: nat, j: nat, ghost AVal: seq<int>, ghost p: nat, ghost b: nat)
    requires p < |AVal| && Visited(Tmvl[..], AVal, p, b)
    requires i == 2 * p + 1 && j == 2 * Reversed(p, b) + 1
    modifies Tmvl
    ensures Visited(Tmvl[..], AVal, p + 1, b)
  {
    ghost var t := Tmvl[..];
    LastIsFixed(p, b);
    VisitedZero(t, AVal, p, b);
    SwappedSlots(t, p, Reversed(p, b));
    Swap(Tmvl, i, j);
    VisitAll(t, Tmvl[..], AVal, p, b);
  }

  lemma {:induction false} VisitedNowhere(t: seq<real>, AVal: seq<int>, b: nat)
    requires |t| == 2 * |AVal| && |AVal| == Power2(b)
    requires forall k: nat :: k < |AVal| ==> t[2 * k + 1] == AVal[k] as real && t[2 * k] == 0.0
    ensures Visited(t, AVal, 0, b)
  {
  }

  lemma {:induction false} VisitedEverywhere(t: seq<real>, AVal: seq<int>, b: nat)
    requires Visited(t, AVal, |AVal|, b)
    ensures forall k: nat :: k < |AVal| ==> t[2 * k] == 0.0
    ensures forall k: nat :: k < |AVal| ==>
              Reversed(k, b) < |AVal| && t[2 * k + 1] == AVal[Reversed(k, b)] as real
  {
    forall k: nat | k < |AVal|
      ensures t[2 * k] == 0.0 && Reversed(k, b) < |AVal| && t[2 * k + 1] == AVal[Reversed(k, b)] as real
    {
      assert SlotHolds(t, AVal, |AVal|, b, k);
    }
  }

  /** The packing loop and the swap loop. */
  method Reorder(AVal: seq<int>, b: nat) returns (Tmvl: array<real>)
    requires b > 0 && |AVal| == Power2(b)
    ensures fresh(Tmvl) && Tmvl.Length == 2 * |AVal|
    ensures forall k: nat :: k < |AVal| ==>
              Reversed(k, b) < |AVal| && Tmvl[2 * k + 1] == AVal[Reversed(k, b)] as real
    ensures forall k: nat :: k < |AVal| ==> Tmvl[2 * k] == 0.0
  {
    var FFT_SIZE := |AVal|;
    Tmvl := Pack(AVal);
    var i, j := 1, 1;
    ghost var p := 0;
    ReversedZero(b);
    VisitedNowhere(Tmvl[..], AVal, b);
    while i < FFT_SIZE * 2
      invariant i == 2 * p + 1 && p <= FFT_SIZE
      invariant p < FFT_SIZE ==> j == 2 * Reversed(p, b) + 1
      invariant Visited(Tmvl[..], AVal, p, b)
    {
      VisitSlot(Tmvl, i, j, AVal, p, b);
      i := i + 2;
      NextReversed(p, b);
      j := Carry(j, b);
      p := p + 1;
    }
    VisitedEverywhere(Tmvl[..], AVal, b);
  }
}
