/** The Fourier transform of the spectrum analyser (src/analog.cpp:3-67), in exact arithmetic.

    A complex number k of the work array has its real part in slot 2k + 1 and its imaginary part in slot 2k. */
module Spectrum {
  import opened Analog
  import opened Arithmetic
  import opened ComplexNumbers

  type Signal = seq<Complex>

  // ---------------------------------------------------------------- the transform

  /** The sum of a[n] z^n, which is the transform of a at the frequency whose root is z. */
  function Transform(a: Signal, z: Complex): Complex {
    if a == [] then ZERO
    else Add(Transform(a[..|a| - 1], z), Mul(a[|a| - 1], Pow(z, |a| - 1)))
  }

  function Evens(a: Signal): (e: Signal)
    requires |a| % 2 == 0
    ensures |e| == |a| / 2
  {
    seq(|a| / 2, i requires 0 <= i < |a| / 2 => a[2 * i])
  }

  function Odds(a: Signal): (o: Signal)
    requires |a| % 2 == 0
    ensures |o| == |a| / 2
  {
    seq(|a| / 2, i requires 0 <= i < |a| / 2 => a[2 * i + 1])
  }

  lemma {:induction false} PeelTwo(a: Signal)
    requires |a| % 2 == 0 && a != []
    ensures var rest, x, y := a[..|a| - 2], a[|a| - 2], a[|a| - 1];
            && a == rest + [x, y] && |Evens(rest)| == |Odds(rest)| == |a| / 2 - 1
            && Evens(a) == Evens(rest) + [x] && Odds(a) == Odds(rest) + [y]
  {
  }

  /** A transform is made of two of half the length. */
  lemma {:induction false} TransformSplits(a: Signal, z: Complex)
    requires |a| % 2 == 0
    ensures Transform(a, z) ==
            Add(Transform(Evens(a), Mul(z, z)), Mul(z, Transform(Odds(a), Mul(z, z))))
    decreases |a|
  {
    if a == [] {
      MulOne(z);
    } else {
      var rest, x, y, zz := a[..|a| - 2], a[|a| - 2], a[|a| - 1], Mul(z, z);
      TransformSplits(rest, z);
      PeelTwo(a);
      LastTwoTerms(rest, x, y, z);
      LastTerm(Evens(rest), x, zz);
      LastTerm(Odds(rest), y, zz);
      PowOfSquare(z, |a| / 2 - 1);
      SplitStep(Transform(Evens(rest), zz), Transform(Odds(rest), zz), x, y, z, Pow(z, |rest|));
    }
  }

  lemma {:induction false} LastTerm(a: Signal, x: Complex, z: Complex)
    ensures Transform(a + [x], z) == Add(Transform(a, z), Mul(x, Pow(z, |a|)))
  {
    assert (a + [x])[..|a|] == a;
  }

  lemma {:induction false} LastTwoTerms(a: Signal, x: Complex, y: Complex, z: Complex)
    ensures Transform(a + [x, y], z) ==
            Add(Add(Transform(a, z), Mul(x, Pow(z, |a|))), Mul(y, Mul(Pow(z, |a|), z)))
  {
    assert a + [x, y] == a + [x] + [y];
    LastTerm(a, x, z);
    LastTerm(a + [x], y, z);
  }

  lemma {:induction false} SplitStep(e: Complex, o: Complex, x: Complex, y: Complex, z: Complex, p: Complex)
    ensures Add(Add(Add(e, Mul(z, o)), Mul(x, p)), Mul(y, Mul(p, z))) ==
            Add(Add(e, Mul(x, p)), Mul(z, Add(o, Mul(y, p))))
  {
    MulOverAdd(z, o, Mul(y, p));
    MulAssociates(y, p, z);
    MulCommutes(Mul(y, p), z);
  }

  // ---------------------------------------------------------------- the recursive form

  /** Two transforms combined; the code advances its twiddle factor before it uses it, so that the power is
      one more than the position. */
  function Combine(e: Signal, o: Signal, w: Complex): (x: Signal)
    requires |e| == |o|
    ensures |x| == 2 * |e|
  {
    seq(2 * |e|, p requires 0 <= p < 2 * |e| =>
      if p < |e| then Add(e[p], Mul(Pow(w, p + 1), o[p]))
      else Sub(e[p - |e|], Mul(Pow(w, p - |e| + 1), o[p - |e|])))
  }

  /** roots[c] is the root of stage c, which makes blocks of 2^(c + 1). */
  function Recursive(a: Signal, c: nat, roots: seq<Complex>): (x: Signal)
    requires |a| == Power2(c) && c <= |roots|
    ensures |x| == |a|
    decreases c
  {
    if c == 0 then a
    else Combine(Recursive(Evens(a), c - 1, roots), Recursive(Odds(a), c - 1, roots), roots[c - 1])
  }

  /** The roots are exact: the first is -1, and each is a square root of the one before. */
  predicate Exact(roots: seq<Complex>) {
    && (|roots| > 0 ==> roots[0] == Neg(ONE))
    && forall c :: 0 < c < |roots| ==> Mul(roots[c], roots[c]) == roots[c - 1]
  }

  function RootFor(roots: seq<Complex>, c: nat): Complex
    requires c <= |roots|
  {
    if c == 0 then ONE else roots[c - 1]
  }

  lemma {:induction false} PowOfRoot(roots: seq<Complex>, c: nat, n: nat)
    requires Exact(roots) && 0 < c <= |roots|
    ensures Pow(RootFor(roots, c), 2 * n) == Pow(RootFor(roots, c - 1), n)
  {
    var r := RootFor(roots, c);
    if c == 1 {
      SquareOfNeg(ONE);
      MulOne(ONE);
    } else {
      var d := c - 1;
      assert Mul(roots[d], roots[d]) == roots[d - 1];
    }
    PowOfSquare(r, n);
  }

  /** Half of a full turn is -1. */
  lemma {:induction false} HalfTurn(roots: seq<Complex>, c: nat)
    requires Exact(roots) && 0 < c <= |roots|
    ensures Pow(RootFor(roots, c), Power2(c - 1)) == Neg(ONE)
    decreases c
  {
    if c == 1 {
      PowOne(roots[0]);
    } else {
      HalfTurn(roots, c - 1);
      PowOfRoot(roots, c, Power2(c - 2));
    }
  }

  lemma {:induction false} PowOne(a: Complex)
    ensures Pow(a, 1) == a
  {
    MulOne(a);
    assert Pow(a, 1) == Mul(Pow(a, 0), a);
  }

  lemma {:induction false} ButterflyLow(a: Signal, r: Complex, n: nat)
    requires |a| % 2 == 0
    ensures var q := Pow(r, 2 * n);
            Add(Transform(Evens(a), q), Mul(Pow(r, n), Transform(Odds(a), q))) == Transform(a, Pow(r, n))
  {
    assert 2 * n == n + n;
    PowAdd(r, n, n);
    TransformSplits(a, Pow(r, n));
  }

  lemma {:induction false} ButterflyHigh(a: Signal, r: Complex, n: nat, h: nat)
    requires |a| % 2 == 0 && Pow(r, h) == Neg(ONE)
    ensures var q := Pow(r, 2 * n);
            Sub(Transform(Evens(a), q), Mul(Pow(r, n), Transform(Odds(a), q))) == Transform(a, Pow(r, n + h))
  {
    var z, q := Pow(r, n), Pow(r, 2 * n);
    assert Pow(r, n + h) == Neg(z) by {
      PowAdd(r, n, h);
      TurnedRound(z);
    }
    assert Mul(Neg(z), Neg(z)) == q by {
      assert 2 * n == n + n;
      PowAdd(r, n, n);
      SquareOfNeg(z);
    }
    TransformSplits(a, Neg(z));
    SubIsAddNeg(Transform(Evens(a), q), z, Transform(Odds(a), q));
  }

  lemma {:induction false} RecursiveLow(a: Signal, c: nat, roots: seq<Complex>, j: nat)
    requires |a| == Power2(c) && 0 < c <= |roots| && j < Power2(c - 1)
    ensures Recursive(a, c, roots)[j] ==
            Add(Recursive(Evens(a), c - 1, roots)[j],
                Mul(Pow(RootFor(roots, c), j + 1), Recursive(Odds(a), c - 1, roots)[j]))
  {
  }

  lemma {:induction false} RecursiveHigh(a: Signal, c: nat, roots: seq<Complex>, j: nat)
    requires |a| == Power2(c) && 0 < c <= |roots| && j < Power2(c - 1)
    ensures Recursive(a, c, roots)[j + Power2(c - 1)] ==
            Sub(Recursive(Evens(a), c - 1, roots)[j],
                Mul(Pow(RootFor(roots, c), j + 1), Recursive(Odds(a), c - 1, roots)[j]))
  {
  }

  lemma {:induction false} HalvesAreTransforms(a: Signal, c: nat, roots: seq<Complex>, j: nat)
    requires |a| == Power2(c) && 0 < c <= |roots| && Exact(roots) && j < Power2(c - 1)
    ensures var q := Pow(RootFor(roots, c), 2 * (j + 1));
            && Recursive(Evens(a), c - 1, roots)[j] == Transform(Evens(a), q)
            && Recursive(Odds(a), c - 1, roots)[j] == Transform(Odds(a), q)
    decreases c, 0
  {
    PowOfRoot(roots, c, j + 1);
    RecursiveIsTransform(Evens(a), c - 1, roots, j);
    RecursiveIsTransform(Odds(a), c - 1, roots, j);
  }

  lemma {:induction false} LowIsTransform(a: Signal, c: nat, roots: seq<Complex>, j: nat)
    requires |a| == Power2(c) && 0 < c <= |roots| && Exact(roots) && j < Power2(c - 1)
    ensures Recursive(a, c, roots)[j] == Transform(a, Pow(RootFor(roots, c), j + 1))
    decreases c, 1
  {
    var z, q := Pow(RootFor(roots, c), j + 1), Pow(RootFor(roots, c), 2 * (j + 1));
    calc {
      Recursive(a, c, roots)[j];
      { RecursiveLow(a, c, roots, j); }
      Add(Recursive(Evens(a), c - 1, roots)[j], Mul(z, Recursive(Odds(a), c - 1, roots)[j]));
      { HalvesAreTransforms(a, c, roots, j); }
      Add(Transform(Evens(a), q), Mul(z, Transform(Odds(a), q)));
      { ButterflyLow(a, RootFor(roots, c), j + 1); }
      Transform(a, z);
    }
  }

  lemma {:induction false} HighIsTransform(a: Signal, c: nat, roots: seq<Complex>, j: nat)
    requires |a| == Power2(c) && 0 < c <= |roots| && Exact(roots) && j < Power2(c - 1)
    ensures Recursive(a, c, roots)[j + Power2(c - 1)] == Transform(a, Pow(RootFor(roots, c), j + 1 + Power2(c - 1)))
    decreases c, 1
  {
    var z, q := Pow(RootFor(roots, c), j + 1), Pow(RootFor(roots, c), 2 * (j + 1));
    calc {
      Recursive(a, c, roots)[j + Power2(c - 1)];
      { RecursiveHigh(a, c, roots, j); }
      Sub(Recursive(Evens(a), c - 1, roots)[j], Mul(z, Recursive(Odds(a), c - 1, roots)[j]));
      { HalvesAreTransforms(a, c, roots, j); }
      Sub(Transform(Evens(a), q), Mul(z, Transform(Odds(a), q)));
      { HalfTurn(roots, c); ButterflyHigh(a, RootFor(roots, c), j + 1, Power2(c - 1)); }
      Transform(a, Pow(RootFor(roots, c), j + 1 + Power2(c - 1)));
    }
  }

  /** With exact roots, position k of the recursive form is the transform at frequency k + 1. */
  lemma {:induction false} RecursiveIsTransform(a: Signal, c: nat, roots: seq<Complex>, k: nat)
    requires |a| == Power2(c) && c <= |roots| && Exact(roots) && k < |a|
    ensures Recursive(a, c, roots)[k] == Transform(a, Pow(RootFor(roots, c), k + 1))
    decreases c, 2
  {
    if c == 0 {
      SingleTransform(a, Pow(RootFor(roots, c), k + 1));
    } else {
      var h := Power2(c - 1);
      if k < h {
        LowIsTransform(a, c, roots, k);
      } else {
        HighIsTransform(a, c, roots, k - h);
      }
    }
  }

  lemma {:induction false} TurnedRound(z: Complex)
    ensures Mul(z, Neg(ONE)) == Neg(z)
  {
  }

  lemma {:induction false} SquareOfNeg(z: Complex)
    ensures Mul(Neg(z), Neg(z)) == Mul(z, z)
  {
  }

  lemma {:induction false} SubIsAddNeg(e: Complex, z: Complex, o: Complex)
    ensures Sub(e, Mul(z, o)) == Add(e, Mul(Neg(z), o))
  {
    MulNeg(z, o);
  }

  lemma {:induction false} SingleTransform(a: Signal, z: Complex)
    requires |a| == 1
    ensures Transform(a, z) == a[0]
  {
    assert a[..0] == [];
    assert Pow(z, 0) == ONE;
    MulOne(a[0]);
    assert Transform(a, z) == Add(Transform(a[..0], z), Mul(a[0], Pow(z, 0)));
  }

  // ---------------------------------------------------------------- the stages in place

  predicate Blocks(n: nat, h: nat) {
    h > 0 && n % (2 * h) == 0
  }

  lemma {:induction false} MultiplesApart(d: nat, q: nat, m: nat)
    requires d * q < d * m
    ensures d * q + d <= d * m
  {
    var e := m - q;
    assert d * e == d * m - d * q;
    assert e <= 0 || d * e >= d;
    assert e >= 1 || d * e <= 0;
  }

  lemma {:induction false} InBlock(i: nat, n: nat, h: nat)
    requires Blocks(n, h) && i < n
    ensures i % (2 * h) < h ==> i + h < n
    ensures i % (2 * h) >= h ==> i >= h
  {
    var d: nat := 2 * h;
    assert i == d * (i / d) + i % d && n == d * (n / d);
    MultiplesApart(d, i / d, n / d);
    RemainderSmaller(i, d);
  }

  function StageAt(x: Signal, h: nat, w: Complex, i: nat): Complex
    requires Blocks(|x|, h) && i < |x|
  {
    InBlock(i, |x|, h);
    var r := i % (2 * h);
    if r < h then Add(x[i], Mul(Pow(w, r + 1), x[i + h])) else Sub(x[i - h], Mul(Pow(w, r - h + 1), x[i]))
  }

  /** A stage turns every block of 2h, whose halves are transforms, into one transform. */
  function Stage(x: Signal, h: nat, w: Complex): (y: Signal)
    requires Blocks(|x|, h)
    ensures |y| == |x|
  {
    seq(|x|, i requires 0 <= i < |x| => StageAt(x, h, w, i))
  }

  lemma {:induction false} StageCombines(e: Signal, o: Signal, w: Complex)
    requires |e| == |o| > 0
    ensures Blocks(|e + o|, |e|)
    ensures Stage(e + o, |e|, w) == Combine(e, o, w)
  {
    var x, h := e + o, |e|;
    QuotientUnique(2 * h, 2 * h, 1, 0);
    forall i | 0 <= i < 2 * h ensures StageAt(x, h, w, i) == Combine(e, o, w)[i] {
      RemainderOfSmall(i, 2 * h);
    }
  }

  lemma {:induction false} WholeBlocksApart(i: nat, n: nat, d: nat)
    requires d > 0 && n % d == 0
    ensures (n + i) % d == i % d
  {
    assert n == d * (n / d) && i == d * (i / d) + i % d;
    assert d * (n / d + i / d) == d * (n / d) + d * (i / d);
    QuotientUnique(n + i, d, n / d + i / d, i % d);
  }

  /** A stage works on parts of whole blocks separately. */
  lemma {:induction false} StageConcat(x: Signal, y: Signal, h: nat, w: Complex)
    requires Blocks(|x|, h) && Blocks(|y|, h)
    ensures Blocks(|x + y|, h)
    ensures Stage(x + y, h, w) == Stage(x, h, w) + Stage(y, h, w)
  {
    WholeBlocksApart(|y|, |x|, 2 * h);
    var z := x + y;
    forall i | 0 <= i < |z|
      ensures StageAt(z, h, w, i) == if i < |x| then StageAt(x, h, w, i) else StageAt(y, h, w, i - |x|)
    {
      if i < |x| {
        InBlock(i, |x|, h);
      } else {
        InBlock(i - |x|, |y|, h);
        WholeBlocksApart(i - |x|, |x|, 2 * h);
      }
    }
  }

  lemma {:induction false} PowerMultiple(b: nat, c: nat)
    requires c <= b
    ensures Power2(b) % Power2(c) == 0
    decreases b
  {
    if b == c {
      QuotientUnique(Power2(b), Power2(c), 1, 0);
    } else {
      PowerMultiple(b - 1, c);
      WholeBlocksApart(Power2(b - 1), Power2(b - 1), Power2(c));
    }
  }

  lemma {:induction false} BlocksOfPower(n: nat, c: nat)
    requires n % Power2(c) == 0 && c > 0
    ensures Blocks(n, Power2(c - 1)) && n % Power2(c - 1) == 0
  {
    var d := Power2(c - 1);
    var q := n / Power2(c);
    assert n == 2 * d * q == d * (2 * q);
    QuotientUnique(n, d, 2 * q, 0);
  }

  /** The first c stages. */
  function Stages(x: Signal, c: nat, roots: seq<Complex>): (y: Signal)
    requires |x| % Power2(c) == 0 && c <= |roots|
    ensures |y| == |x|
    decreases c
  {
    if c == 0 then x
    else
      BlocksOfPower(|x|, c);
      Stage(Stages(x, c - 1, roots), Power2(c - 1), roots[c - 1])
  }

  lemma {:induction false} StagesConcat(x: Signal, y: Signal, c: nat, roots: seq<Complex>)
    requires |x| % Power2(c) == 0 && |y| % Power2(c) == 0 && c <= |roots|
    ensures |x + y| % Power2(c) == 0
    ensures Stages(x + y, c, roots) == Stages(x, c, roots) + Stages(y, c, roots)
    decreases c
  {
    WholeBlocksApart(|y|, |x|, Power2(c));
    if c > 0 {
      BlocksOfPower(|x|, c);
      BlocksOfPower(|y|, c);
      StagesConcat(x, y, c - 1, roots);
      StageConcat(Stages(x, c - 1, roots), Stages(y, c - 1, roots), Power2(c - 1), roots[c - 1]);
    }
  }

  /** The order in which the reordering leaves the samples. */
  function BitReversed(a: Signal, c: nat): (x: Signal)
    requires |a| == Power2(c)
    ensures |x| == |a|
  {
    seq(|a|, k requires 0 <= k < |a| =>
      ReversedBound(k, c);
      a[Reversed(k, c)])
  }

  /** The even samples come first, in bit-reversed order, and then the odd ones. */
  lemma {:induction false} BitReversedSplits(a: Signal, c: nat)
    requires |a| == Power2(c) && c > 0
    ensures BitReversed(a, c) == BitReversed(Evens(a), c - 1) + BitReversed(Odds(a), c - 1)
  {
    assert |a| == 2 * Power2(c - 1);
    forall k: nat | k < |a|
      ensures BitReversed(a, c)[k] == (BitReversed(Evens(a), c - 1) + BitReversed(Odds(a), c - 1))[k]
    {
      BitReversedAt(a, c, k);
    }
  }

  lemma {:induction false} BitReversedAt(a: Signal, c: nat, k: nat)
    requires c > 0 && k < |a| == Power2(c) == 2 * Power2(c - 1)
    ensures var h := Power2(c - 1);
            BitReversed(a, c)[k] ==
            if k < h then BitReversed(Evens(a), c - 1)[k] else BitReversed(Odds(a), c - 1)[k - h]
  {
    var h := Power2(c - 1);
    ReversedBound(k, c);
    ReversedFromTop(k, c);
    ReversedBound(if k < h then k else k - h, c - 1);
  }

  lemma {:induction false} StagesOfHalves(e: Signal, o: Signal, c: nat, roots: seq<Complex>)
    requires 0 < c <= |roots| && |e| == |o| == Power2(c - 1)
    ensures |e| % Power2(c - 1) == 0 && |e + o| % Power2(c) == 0
    ensures Stages(e + o, c, roots) ==
            Combine(Stages(e, c - 1, roots), Stages(o, c - 1, roots), roots[c - 1])
  {
    PowerMultiple(c - 1, c - 1);
    PowerMultiple(c, c);
    StagesConcat(e, o, c - 1, roots);
    StageCombines(Stages(e, c - 1, roots), Stages(o, c - 1, roots), roots[c - 1]);
  }

  /** The stages on reordered samples compute what the recursive form does. */
  lemma {:induction false} StagesAreRecursive(a: Signal, c: nat, roots: seq<Complex>)
    requires |a| == Power2(c) && c <= |roots|
    ensures |a| % Power2(c) == 0
    ensures Stages(BitReversed(a, c), c, roots) == Recursive(a, c, roots)
    decreases c
  {
    PowerMultiple(c, c);
    if c == 0 {
      assert BitReversed(a, 0) == a;
    } else {
      StagesAreRecursive(Evens(a), c - 1, roots);
      StagesAreRecursive(Odds(a), c - 1, roots);
      BitReversedSplits(a, c);
      StagesOfHalves(BitReversed(Evens(a), c - 1), BitReversed(Odds(a), c - 1), c, roots);
    }
  }

  // ---------------------------------------------------------------- the loops of a stage

  /** One butterfly. */
  function Paired(x: Signal, p: nat, q: nat, w: Complex): (y: Signal)
    requires p < |x| && q < |x|
    ensures |y| == |x|
  {
    x[q := Sub(x[p], Mul(w, x[q]))][p := Add(x[p], Mul(w, x[q]))]
  }

  /** The inner loop: one butterfly in every block, from position p on. */
  function Column(x: Signal, p: nat, h: nat, w: Complex): (y: Signal)
    requires Blocks(|x|, h) && p % (2 * h) < h
    ensures |y| == |x|
    decreases |x| - p
  {
    if p >= |x| then x
    else
      InBlock(p, |x|, h);
      NextBlock(p, h);
      Column(Paired(x, p, p + h, w), p + 2 * h, h, w)
  }

  lemma {:induction false} NextBlock(p: nat, h: nat)
    requires h > 0
    ensures (p + 2 * h) % (2 * h) == p % (2 * h)
  {
    QuotientUnique(2 * h, 2 * h, 1, 0);
    WholeBlocksApart(p, 2 * h, 2 * h);
  }

  /** The part of position i in a column of remainder k, seen from position p. */
  function ColumnValue(x: Signal, p: nat, h: nat, w: Complex, i: nat): Complex
    requires Blocks(|x|, h) && p % (2 * h) < h && i < |x|
  {
    InBlock(i, |x|, h);
    var r, k := i % (2 * h), p % (2 * h);
    if r == k && i >= p then Add(x[i], Mul(w, x[i + h]))
    else if r == k + h && i >= p + h then Sub(x[i - h], Mul(w, x[i]))
    else x[i]
  }

  lemma {:induction false} SameRemainder(i: nat, p: nat, d: nat)
    requires d > 0 && i % d == p % d && i > p
    ensures i >= p + d
  {
    assert i == d * (i / d) + i % d && p == d * (p / d) + p % d;
    MultiplesApart(d, p / d, i / d);
  }

  lemma {:induction false} LowerHalf(p: nat, h: nat)
    requires h > 0 && p % (2 * h) < h
    ensures (p + h) % (2 * h) == p % (2 * h) + h
  {
    var d: nat := 2 * h;
    assert p == d * (p / d) + p % d;
    QuotientUnique(p + h, d, p / d, p % d + h);
  }

  lemma {:induction false} ColumnAt(x: Signal, p: nat, h: nat, w: Complex, i: nat)
    requires Blocks(|x|, h) && p % (2 * h) < h && i < |x|
    ensures Column(x, p, h, w)[i] == ColumnValue(x, p, h, w, i)
    decreases |x| - p
  {
    InBlock(i, |x|, h);
    if p < |x| {
      InBlock(p, |x|, h);
      NextBlock(p, h);
      var y := Paired(x, p, p + h, w);
      ColumnAt(y, p + 2 * h, h, w, i);
      ColumnStep(x, p, h, w, i);
    }
  }

  lemma {:induction false} ColumnStep(x: Signal, p: nat, h: nat, w: Complex, i: nat)
    requires Blocks(|x|, h) && p % (2 * h) < h && i < |x| && p + h < |x| && (p + 2 * h) % (2 * h) == p % (2 * h)
    ensures ColumnValue(Paired(x, p, p + h, w), p + 2 * h, h, w, i) == ColumnValue(x, p, h, w, i)
  {
    var r, k := i % (2 * h), p % (2 * h);
    InBlock(i, |x|, h);
    LowerHalf(p, h);
    if r == k && i > p { SameRemainder(i, p, 2 * h); }
    if r == k + h && i > p + h { SameRemainder(i, p + h, 2 * h); }
  }

  /** The first n columns of a stage. */
  function Columns(x: Signal, h: nat, w: Complex, n: nat): (y: Signal)
    requires Blocks(|x|, h) && n <= h
    ensures |y| == |x|
    decreases n
  {
    if n == 0 then x
    else
      RemainderOfSmall(n - 1, 2 * h);
      Column(Columns(x, h, w, n - 1), n - 1, h, Pow(w, n))
  }

  lemma {:induction false} ColumnsAt(x: Signal, h: nat, w: Complex, n: nat, i: nat)
    requires Blocks(|x|, h) && n <= h && i < |x|
    ensures var r := i % (2 * h);
            Columns(x, h, w, n)[i] == if r < n || h <= r < h + n then StageAt(x, h, w, i) else x[i]
    decreases n
  {
    InBlock(i, |x|, h);
    if n > 0 {
      var y, r := Columns(x, h, w, n - 1), i % (2 * h);
      RemainderOfSmall(n - 1, 2 * h);
      RemainderSmaller(i, 2 * h);
      ColumnAt(y, n - 1, h, Pow(w, n), i);
      ColumnsAt(x, h, w, n - 1, i);
      if r == n - 1 {
        LowerHalf(i, h);
        ColumnsAt(x, h, w, n - 1, i + h);
      } else if r == n - 1 + h {
        UpperHalf(i, h);
        ColumnsAt(x, h, w, n - 1, i - h);
      }
    }
  }

  lemma {:induction false} UpperHalf(i: nat, h: nat)
    requires h > 0 && i % (2 * h) >= h && i >= h
    ensures (i - h) % (2 * h) == i % (2 * h) - h
  {
    var d: nat := 2 * h;
    assert i == d * (i / d) + i % d;
    QuotientUnique(i - h, d, i / d, i % d - h);
  }

  lemma {:induction false} ColumnsAreStage(x: Signal, h: nat, w: Complex)
    requires Blocks(|x|, h)
    ensures Columns(x, h, w, h) == Stage(x, h, w)
  {
    forall i | 0 <= i < |x| ensures Columns(x, h, w, h)[i] == StageAt(x, h, w, i) {
      ColumnsAt(x, h, w, h, i);
    }
  }

  // ---------------------------------------------------------------- the work array

  function Cells(t: seq<real>): (x: Signal)
    requires |t| % 2 == 0
    ensures 2 * |x| == |t|
  {
    seq(|t| / 2, k requires 0 <= k < |t| / 2 => Complex(t[2 * k + 1], t[2 * k]))
  }

  lemma {:induction false} CellSet(t: seq<real>, i: nat, re: real, im: real)
    requires |t| % 2 == 0 && i % 2 == 1 && i < |t|
    ensures Cells(t)[i / 2] == Complex(t[i], t[i - 1])
    ensures Cells(t[i := re][i - 1 := im]) == Cells(t)[i / 2 := Complex(re, im)]
  {
    assert 2 * (i / 2) + 1 == i;
  }

  method SetCell(Tmvl: array<real>, i: nat, re: real, im: real)
    requires Tmvl.Length % 2 == 0 && i % 2 == 1 && i < Tmvl.Length
    modifies Tmvl
    ensures Tmvl[..] == old(Tmvl[..])[i := re][i - 1 := im]
    ensures Cells(Tmvl[..]) == Cells(old(Tmvl[..]))[i / 2 := Complex(re, im)]
  {
    CellSet(Tmvl[..], i, re, im);
    Tmvl[i] := re;
    Tmvl[i - 1] := im;
  }

  /** The body of the inner loop. */
  method Butterfly(Tmvl: array<real>, i: nat, j: nat, Wr: real, Wi: real)
    requires Tmvl.Length % 2 == 0 && i % 2 == j % 2 == 1 && i < j < Tmvl.Length
    modifies Tmvl
    ensures Cells(Tmvl[..]) == Paired(Cells(old(Tmvl[..])), i / 2, j / 2, Complex(Wr, Wi))
  {
    ghost var x := Cells(Tmvl[..]);
    CellSet(Tmvl[..], i, 0.0, 0.0);
    CellSet(Tmvl[..], j, 0.0, 0.0);
    var Tmpr := Wr * Tmvl[j] - Wi * Tmvl[j - 1];
    var Tmpi := Wi * Tmvl[j] + Wr * Tmvl[j - 1];
    assert Complex(Tmpr, Tmpi) == Mul(Complex(Wr, Wi), x[j / 2]);
    SetCell(Tmvl, j, Tmvl[i] - Tmpr, Tmvl[i - 1] - Tmpi);
    SetCell(Tmvl, i, Tmvl[i] + Tmpr, Tmvl[i - 1] + Tmpi);
  }

  lemma {:induction false} ColumnGoesOn(x: Signal, p: nat, h: nat, w: Complex)
    requires Blocks(|x|, h) && p % (2 * h) < h
    requires p < |x|
    ensures p + h < |x| && (p + 2 * h) % (2 * h) == p % (2 * h)
    ensures Column(x, p, h, w) == Column(Paired(x, p, p + h, w), p + 2 * h, h, w)
  {
    InBlock(p, |x|, h);
    NextBlock(p, h);
  }

  /** The column from position p on leads to all. */
  ghost predicate OnColumn(x: Signal, p: nat, h: nat, w: Complex, all: Signal) {
    Blocks(|x|, h) && p % (2 * h) < h && Column(x, p, h, w) == all
  }

  /** The body of the inner loop. */
  method NextButterfly(Tmvl: array<real>, i: nat, Mmax: nat, Wr: real, Wi: real, ghost p: nat, ghost h: nat,
                       ghost all: Signal)
    requires Tmvl.Length % 2 == 0 && Mmax == 2 * h && i == 2 * p + 1 && i < Tmvl.Length
    requires OnColumn(Cells(Tmvl[..]), p, h, Complex(Wr, Wi), all)
    modifies Tmvl
    ensures OnColumn(Cells(Tmvl[..]), p + 2 * h, h, Complex(Wr, Wi), all)
  {
    var j := i + Mmax;
    ColumnGoesOn(Cells(Tmvl[..]), p, h, Complex(Wr, Wi));
    assert i / 2 == p && j / 2 == p + h;
    Butterfly(Tmvl, i, j, Wr, Wi);
  }

  lemma {:induction false} ColumnBegins(x: Signal, p: nat, h: nat, w: Complex)
    requires Blocks(|x|, h) && p < h
    ensures p % (2 * h) < h && OnColumn(x, p, h, w, Column(x, p, h, w))
  {
    RemainderOfSmall(p, 2 * h);
  }

  lemma {:induction false} ColumnEnds(x: Signal, p: nat, h: nat, w: Complex, all: Signal)
    requires OnColumn(x, p, h, w, all) && p >= |x|
    ensures x == all
  {
  }

  /** The inner loop. */
  method RunColumn(Tmvl: array<real>, i0: nat, Mmax: nat, Wr: real, Wi: real, ghost h: nat)
    requires Tmvl.Length % 2 == 0 && Mmax == 2 * h && Blocks(Tmvl.Length / 2, h)
    requires i0 % 2 == 1 && i0 < Mmax
    modifies Tmvl
    ensures i0 / 2 % (2 * h) < h
    ensures Cells(Tmvl[..]) == Column(Cells(old(Tmvl[..])), i0 / 2, h, Complex(Wr, Wi))
  {
    var Istp := Mmax * 2;
    var i := i0;
    ghost var p, w := i0 / 2, Complex(Wr, Wi);
    assert i0 == 2 * p + 1 && p < h;
    ColumnBegins(Cells(Tmvl[..]), p, h, w);
    ghost var all := Column(Cells(Tmvl[..]), p, h, w);
    while i < Tmvl.Length
      invariant i == 2 * p + 1 && OnColumn(Cells(Tmvl[..]), p, h, w, all)
      decreases Tmvl.Length - i
    {
      NextButterfly(Tmvl, i, Mmax, Wr, Wi, p, h, all);
      i := i + Istp;
      p := p + 2 * h;
    }
    ColumnEnds(Cells(Tmvl[..]), p, h, w, all);
  }

  /** The root of a stage as the table gives it: 1 - 2 sin^2(t / 2) + i sin t. */
  function TableRoot(sinF: seq<real>, count: nat): Complex
    requires count + 1 < |sinF|
  {
    Complex(1.0 - sinF[count + 1] * sinF[count + 1] * 2.0, sinF[count])
  }

  /** The twiddle factor is advanced by a rotation. */
  method Rotate(Wr: real, Wi: real, Wpr: real, sine: real) returns (Vr: real, Vi: real)
    ensures Complex(Vr, Vi) == Mul(Complex(Wr, Wi), Complex(1.0 - Wpr, sine))
  {
    var Tmpr, Tmpi := Wr, Wi;
    Vr := Wr + (-Tmpr * Wpr - Tmpi * sine);
    Vi := Wi + (Tmpr * sine - Tmpi * Wpr);
  }

  lemma {:induction false} ColumnsGoOn(x: Signal, h: nat, w: Complex, k: nat)
    requires Blocks(|x|, h) && k < h
    ensures k % (2 * h) < h
    ensures Columns(x, h, w, k + 1) == Column(Columns(x, h, w, k), k, h, Mul(Pow(w, k), w))
  {
    RemainderOfSmall(k, 2 * h);
  }

  /** The body of the loop over m: the factor is advanced before it is used. */
  method NextColumn(Tmvl: array<real>, m: nat, Mmax: nat, Wr: real, Wi: real, Wpr: real, sine: real,
                    ghost x: Signal, ghost h: nat, ghost k: nat) returns (Vr: real, Vi: real)
    requires Tmvl.Length % 2 == 0 && Mmax == 2 * h && Blocks(Tmvl.Length / 2, h) && 2 * |x| == Tmvl.Length
    requires k < h && m == 2 * k + 1 && Complex(Wr, Wi) == Pow(Complex(1.0 - Wpr, sine), k)
    requires Cells(Tmvl[..]) == Columns(x, h, Complex(1.0 - Wpr, sine), k)
    modifies Tmvl
    ensures Complex(Vr, Vi) == Pow(Complex(1.0 - Wpr, sine), k + 1)
    ensures Cells(Tmvl[..]) == Columns(x, h, Complex(1.0 - Wpr, sine), k + 1)
  {
    ghost var root := Complex(1.0 - Wpr, sine);
    Vr, Vi := Rotate(Wr, Wi, Wpr, sine);
    PowStep(root, k);
    ColumnsGoOn(x, h, root, k);
    RunColumn(Tmvl, m, Mmax, Vr, Vi, h);
  }

  /** The loop over m. */
  method RunStage(Tmvl: array<real>, Mmax: nat, sinF: seq<real>, count: nat, ghost h: nat)
    requires Tmvl.Length % 2 == 0 && Mmax == 2 * h && Blocks(Tmvl.Length / 2, h) && count + 1 < |sinF|
    modifies Tmvl
    ensures Cells(Tmvl[..]) == Stage(Cells(old(Tmvl[..])), h, TableRoot(sinF, count))
  {
    var Wpr := sinF[count + 1] * sinF[count + 1] * 2.0;
    var Wr, Wi := 1.0, 0.0;
    var m: nat := 1;
    ghost var k: nat, x, root := 0, Cells(Tmvl[..]), TableRoot(sinF, count);
    assert root == Complex(1.0 - Wpr, sinF[count]);
    while m < Mmax
      invariant m == 2 * k + 1 && k <= h
      invariant Complex(Wr, Wi) == Pow(root, k)
      invariant Cells(Tmvl[..]) == Columns(x, h, root, k)
    {
      Wr, Wi := NextColumn(Tmvl, m, Mmax, Wr, Wi, Wpr, sinF[count], x, h, k);
      m := m + 2;
      k := k + 1;
    }
    ColumnsAreStage(x, h, root);
  }

  function Samples(AVal: seq<int>): (a: Signal)
    ensures |a| == |AVal|
  {
    seq(|AVal|, k requires 0 <= k < |AVal| => Complex(AVal[k] as real, 0.0))
  }

  function Roots(sinF: seq<real>, b: nat): (roots: seq<Complex>)
    requires b < |sinF|
    ensures |roots| == b
  {
    seq(b, c requires 0 <= c < b => TableRoot(sinF, c))
  }

  function Norm(z: Complex): real { z.re * z.re + z.im * z.im }

  lemma {:induction false} ReorderedCells(t: seq<real>, AVal: seq<int>, b: nat)
    requires |AVal| == Power2(b) && |t| == 2 * |AVal|
    requires forall k: nat :: k < |AVal| ==>
               Reversed(k, b) < |AVal| && t[2 * k + 1] == AVal[Reversed(k, b)] as real && t[2 * k] == 0.0
    ensures Cells(t) == BitReversed(Samples(AVal), b)
  {
    forall k: nat | k < |AVal| ensures Cells(t)[k] == BitReversed(Samples(AVal), b)[k] {
      ReversedBound(k, b);
    }
  }

  lemma {:induction false} StagesGoOn(x: Signal, b: nat, c: nat, roots: seq<Complex>)
    requires |x| == Power2(b) && c < b == |roots|
    ensures |x| % Power2(c) == 0 && |x| % Power2(c + 1) == 0 && Blocks(|x|, Power2(c))
    ensures Stages(x, c + 1, roots) == Stage(Stages(x, c, roots), Power2(c), roots[c])
  {
    PowerMultiple(b, c);
    PowerMultiple(b, c + 1);
    BlocksOfPower(|x|, c + 1);
  }

  lemma {:induction false} PowerOrder(c: nat, b: nat)
    requires c <= b
    ensures Power2(c) < Power2(b) <==> c < b
    decreases b
  {
    if c < b {
      PowerOrder(c, b - 1);
    }
  }

  /** The work array after count stages. */
  ghost predicate StagesDone(x: Signal, now: Signal, count: nat, roots: seq<Complex>) {
    count <= |roots| && |x| % Power2(count) == 0 && now == Stages(x, count, roots)
  }

  lemma {:induction false} NoStageDone(x: Signal, roots: seq<Complex>)
    ensures StagesDone(x, x, 0, roots)
  {
    QuotientUnique(|x|, 1, |x|, 0);
  }

  /** The body of the loop over Mmax. */
  method NextStage(Tmvl: array<real>, Mmax: nat, sinF: seq<real>, count: nat, ghost x: Signal, ghost b: nat)
    requires |x| == Power2(b) && Tmvl.Length == 2 * |x| && count < b < |sinF| && Mmax == 2 * Power2(count)
    requires StagesDone(x, Cells(Tmvl[..]), count, Roots(sinF, b))
    modifies Tmvl
    ensures StagesDone(x, Cells(Tmvl[..]), count + 1, Roots(sinF, b))
  {
    StagesGoOn(x, b, count, Roots(sinF, b));
    RunStage(Tmvl, Mmax, sinF, count, Power2(count));
  }

  /** The loop over Mmax. */
  method RunStages(Tmvl: array<real>, sinF: seq<real>, b: nat)
    requires Tmvl.Length == 2 * Power2(b) && b < |sinF|
    modifies Tmvl
    ensures StagesDone(Cells(old(Tmvl[..])), Cells(Tmvl[..]), b, Roots(sinF, b))
  {
    ghost var x := Cells(Tmvl[..]);
    var Mmax: nat, count: nat := 2, 0;
    NoStageDone(x, Roots(sinF, b));
    while Tmvl.Length > Mmax
      invariant count <= b && Mmax == 2 * Power2(count)
      invariant StagesDone(x, Cells(Tmvl[..]), count, Roots(sinF, b))
      decreases b - count
    {
      PowerOrder(count, b);
      NextStage(Tmvl, Mmax, sinF, count, x, b);
      count := count + 1;
      Mmax := Mmax * 2;
    }
    PowerOrder(count, b);
    assert count == b;
  }

  // ---------------------------------------------------------------- the whole transform

  /** The level l reports a transform value z in units of 2^18: truncated, and shifted. */
  predicate Reports(l: int, z: Complex) {
    262144.0 * (l as real) <= Norm(z) < 262144.0 * ((l + 1) as real)
  }

  /** There is one such level, and the cast to int and the shift by 18 give it. */
  lemma {:induction false} ReportsIff(l: int, z: Complex)
    ensures Reports(l, z) <==> l == (z.re * z.re + z.im * z.im).Floor / 262144
  {
    var x: int := Norm(z).Floor;
    assert x == 262144 * (x / 262144) + x % 262144;
    assert (x as real) <= Norm(z) < (x + 1) as real;
  }

  method Output(Tmvl: array<real>, n: nat) returns (FTvl: array<int>)
    requires Tmvl.Length == 2 * n
    ensures fresh(FTvl) && FTvl.Length == n
    ensures forall k :: 0 <= k < n ==> Reports(FTvl[k], Cells(Tmvl[..])[k])
  {
    FTvl := new int[n];
    for i := 0 to n
      invariant forall k :: 0 <= k < i ==> Reports(FTvl[k], Cells(Tmvl[..])[k])
    {
      var j := i * 2;
      CellSet(Tmvl[..], j + 1, 0.0, 0.0);
      FTvl[i] := (Tmvl[j] * Tmvl[j] + Tmvl[j + 1] * Tmvl[j + 1]).Floor / 262144;
      ReportsIff(FTvl[i], Complex(Tmvl[j + 1], Tmvl[j]));
    }
  }

  /** For any table the result is that of the recursive form with the roots that the table gives; with an exact
      table it is the spectrum of the samples, one frequency further than its index. */
  method FFT(AVal: seq<int>, sinF: seq<real>, b: nat) returns (FTvl: array<int>)
    requires b > 0 && |AVal| == Power2(b) && b < |sinF|
    ensures fresh(FTvl) && FTvl.Length == |AVal|
    ensures forall k :: 0 <= k < |AVal| ==> Reports(FTvl[k], Recursive(Samples(AVal), b, Roots(sinF, b))[k])
    ensures Exact(Roots(sinF, b)) ==> forall k :: 0 <= k < |AVal| ==>
              Reports(FTvl[k], Transform(Samples(AVal), Pow(TableRoot(sinF, b - 1), k + 1)))
  {
    var Tmvl := Reorder(AVal, b);
    ReorderedCells(Tmvl[..], AVal, b);
    RunStages(Tmvl, sinF, b);
    StagesAreRecursive(Samples(AVal), b, Roots(sinF, b));
    FTvl := Output(Tmvl, |AVal|);
    forall k | 0 <= k < |AVal| && Exact(Roots(sinF, b))
      ensures Reports(FTvl[k], Transform(Samples(AVal), Pow(TableRoot(sinF, b - 1), k + 1)))
    {
      RecursiveIsTransform(Samples(AVal), b, Roots(sinF, b), k);
    }
  }

  // ---------------------------------------------------------------- what that means for the levels

  /** A full turn is 1. */
  lemma {:induction false} FullTurn(roots: seq<Complex>, c: nat)
    requires Exact(roots) && c <= |roots|
    ensures Pow(RootFor(roots, c), Power2(c)) == ONE
    decreases c
  {
    if c == 0 {
      PowOne(ONE);
    } else {
      FullTurn(roots, c - 1);
      PowOfRoot(roots, c, Power2(c - 1));
    }
  }

  function Sum(AVal: seq<int>): int {
    if AVal == [] then 0 else Sum(AVal[..|AVal| - 1]) + AVal[|AVal| - 1]
  }

  lemma {:induction false} TransformAtOne(AVal: seq<int>)
    ensures Transform(Samples(AVal), ONE) == Complex(Sum(AVal) as real, 0.0)
  {
    if AVal != [] {
      var rest := AVal[..|AVal| - 1];
      var x := Complex(AVal[|rest|] as real, 0.0);
      assert Samples(AVal) == Samples(rest) + [x];
      LastTerm(Samples(rest), x, ONE);
      assert Mul(x, Pow(ONE, |rest|)) == x by {
        PowOfOne(|rest|);
        MulOne(x);
      }
      TransformAtOne(rest);
    }
  }

  /** The constant part of the signal is reported last, not first. */
  lemma {:induction false} ConstantComesLast(AVal: seq<int>, roots: seq<Complex>, b: nat)
    requires 0 < b <= |roots| && |AVal| == Power2(b) && Exact(roots)
    ensures Recursive(Samples(AVal), b, roots)[|AVal| - 1] == Complex(Sum(AVal) as real, 0.0)
  {
    RecursiveIsTransform(Samples(AVal), b, roots, |AVal| - 1);
    FullTurn(roots, b);
    TransformAtOne(AVal);
  }

  function Conj(z: Complex): Complex { Complex(z.re, -z.im) }

  lemma {:induction false} ConjMul(a: Complex, b: Complex)
    ensures Conj(Mul(a, b)) == Mul(Conj(a), Conj(b))
    ensures Conj(Add(a, b)) == Add(Conj(a), Conj(b))
    ensures Norm(Conj(a)) == Norm(a)
  {
  }

  lemma {:induction false} ConjPow(z: Complex, n: nat)
    ensures Conj(Pow(z, n)) == Pow(Conj(z), n)
  {
    if n > 0 {
      ConjPow(z, n - 1);
      ConjMul(Pow(z, n - 1), z);
    }
  }

  predicate IsReal(a: Signal) {
    forall k :: 0 <= k < |a| ==> a[k].im == 0.0
  }

  /** The transform of a real signal at the conjugate frequency is the conjugate. */
  lemma {:induction false} TransformOfReal(a: Signal, z: Complex)
    requires IsReal(a)
    ensures Transform(a, Conj(z)) == Conj(Transform(a, z))
  {
    if a != [] {
      var n := |a| - 1;
      TransformOfReal(a[..n], z);
      ConjPow(z, n);
      assert Conj(a[n]) == a[n];
      ConjMul(a[n], Pow(z, n));
      ConjMul(Transform(a[..n], z), Mul(a[n], Pow(z, n)));
    }
  }

  lemma {:induction false} NormMul(a: Complex, b: Complex)
    ensures Norm(Mul(a, b)) == Norm(a) * Norm(b)
  {
  }

  lemma {:induction false} SquareIsOne(x: real)
    requires x >= 0.0 && x * x == 1.0
    ensures x == 1.0
  {
    assert x < 1.0 ==> x * (1.0 - x) >= 0.0;
    assert x > 1.0 ==> x * (x - 1.0) > 0.0;
  }

  /** Exact roots lie on the unit circle. */
  lemma {:induction false} RootsAreUnits(roots: seq<Complex>, c: nat)
    requires Exact(roots) && c < |roots|
    ensures Norm(roots[c]) == 1.0
    decreases c
  {
    if c > 0 {
      RootsAreUnits(roots, c - 1);
      assert Mul(roots[c], roots[c]) == roots[c - 1];
      NormMul(roots[c], roots[c]);
      NormPositive(roots[c]);
      SquareIsOne(Norm(roots[c]));
    }
  }

  lemma {:induction false} NormPositive(z: Complex)
    ensures Norm(z) >= 0.0
  {
  }

  lemma {:induction false} ConjIsInverse(z: Complex)
    ensures Mul(z, Conj(z)) == Complex(Norm(z), 0.0)
  {
  }

  /** On the unit circle, opposite powers are conjugate. */
  lemma {:induction false} OppositePower(z: Complex, m: nat, n: nat)
    requires Norm(z) == 1.0 && Pow(z, m + n) == ONE
    ensures Pow(z, n) == Conj(Pow(z, m))
  {
    var p, q := Pow(z, m), Pow(z, n);
    NormOfPow(z, m);
    PowAdd(z, m, n);
    assert Mul(p, q) == ONE;
    calc {
      q;
      { MulOne(q); ConjIsInverse(p); MulCommutes(p, Conj(p)); }
      Mul(Mul(Conj(p), p), q);
      { MulAssociates(Conj(p), p, q); }
      Mul(Conj(p), ONE);
      { MulOne(Conj(p)); }
      Conj(p);
    }
  }

  lemma {:induction false} NormOfPow(z: Complex, n: nat)
    requires Norm(z) == 1.0
    ensures Norm(Pow(z, n)) == 1.0
  {
    if n > 0 {
      NormOfPow(z, n - 1);
      NormMul(Pow(z, n - 1), z);
    }
  }

  lemma {:induction false} HalfRoot(z: Complex, w: Complex)
    requires Norm(z) == 1.0 && Mul(z, z) == w
    ensures w.re == 1.0 - z.im * z.im * 2.0
  {
  }

  lemma {:induction false} SineGivesRoot(sinF: seq<real>, roots: seq<Complex>, c: nat)
    requires Exact(roots) && c + 1 < |roots| && c + 1 < |sinF|
    requires sinF[c] == roots[c].im && sinF[c + 1] == roots[c + 1].im
    ensures TableRoot(sinF, c) == roots[c]
  {
    var n := c + 1;
    RootsAreUnits(roots, n);
    assert Mul(roots[n], roots[n]) == roots[n - 1];
    HalfRoot(roots[n], roots[c]);
  }

  lemma {:induction false} ExactPrefix(roots: seq<Complex>, b: nat)
    requires Exact(roots) && b <= |roots|
    ensures Exact(roots[..b])
  {
  }

  /** A table of the sines of exact roots, one more than there are stages, gives exactly these roots. */
  lemma {:induction false} SineTableGivesRoots(sinF: seq<real>, roots: seq<Complex>, b: nat)
    requires Exact(roots) && |roots| == b + 1 && b < |sinF|
    requires forall c :: 0 <= c <= b ==> sinF[c] == roots[c].im
    ensures Roots(sinF, b) == roots[..b] && Exact(Roots(sinF, b))
  {
    forall c: nat | c < b ensures Roots(sinF, b)[c] == roots[..b][c] {
      SineGivesRoot(sinF, roots, c);
    }
    ExactPrefix(roots, b);
  }

  /** The levels are mirrored: those beyond the first half repeat it backwards, and add nothing. */
  lemma {:induction false} LevelsAreMirrored(AVal: seq<int>, roots: seq<Complex>, b: nat, k: nat)
    requires 0 < b == |roots| && |AVal| == Power2(b) && Exact(roots) && k + 2 <= |AVal|
    ensures var x := Recursive(Samples(AVal), b, roots);
            Norm(x[|AVal| - 2 - k]) == Norm(x[k])
  {
    var n, r, a := |AVal|, roots[b - 1], Samples(AVal);
    var z := Pow(r, k + 1);
    RecursiveIsTransform(a, b, roots, k);
    RecursiveIsTransform(a, b, roots, n - 2 - k);
    FullTurn(roots, b);
    RootsAreUnits(roots, b - 1);
    OppositePower(r, k + 1, n - 1 - k);
    TransformOfReal(a, z);
    ConjMul(Transform(a, z), ONE);
  }
}
