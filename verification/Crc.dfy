/** The theory of a bitwise cyclic redundancy check over a shift register of any width. */
module Crc {
  import opened Bits
  import opened Polynomials

  /** One input bit: the register is reduced when the bit shifted out differs from the input. */
  function Step(poly: Bits, reg: Bits, input: bool): (next: Bits)
    requires |poly| == |reg| > 0
    ensures |next| == |reg|
  {
    var shifted := reg[1..] + [false];
    if reg[0] != input then Xor(shifted, poly) else shifted
  }

  function Feed(poly: Bits, reg: Bits, stream: Bits): (next: Bits)
    requires |poly| == |reg| > 0
    ensures |next| == |reg|
    decreases stream
  {
    if stream == [] then reg else Feed(poly, Step(poly, reg, stream[0]), stream[1..])
  }

  /** Takes back a step whose input was known; the low bit tells whether it reduced. */
  function Unstep(poly: Bits, reg: Bits, input: bool): (last: Bits)
    requires |poly| == |reg| > 0
    ensures |last| == |reg|
  {
    var low := reg[|reg| - 1];
    [low != input] + (if low then Xor(reg, poly) else reg)[..|reg| - 1]
  }

  function Unfeed(poly: Bits, reg: Bits, stream: Bits): (last: Bits)
    requires |poly| == |reg| > 0
    ensures |last| == |reg|
    decreases stream
  {
    if stream == [] then reg else Unstep(poly, Unfeed(poly, reg, stream[1..]), stream[0])
  }

  lemma {:induction false} UnstepUndoesStep(poly: Bits, reg: Bits, input: bool)
    requires |poly| == |reg| > 0 && poly[|poly| - 1]
    ensures Unstep(poly, Step(poly, reg, input), input) == reg
  {
  }

  lemma {:induction false} StepUndoesUnstep(poly: Bits, reg: Bits, input: bool)
    requires |poly| == |reg| > 0 && poly[|poly| - 1]
    ensures Step(poly, Unstep(poly, reg, input), input) == reg
  {
    var last := Unstep(poly, reg, input);
    assert last[1..] + [false] == (if reg[|reg| - 1] then Xor(reg, poly) else reg);
  }

  /** Because the polynomial is odd a step can be taken back. */
  lemma {:induction false} StepReversible(poly: Bits, reg: Bits, input: bool)
    requires |poly| == |reg| > 0 && poly[|poly| - 1]
    ensures Unstep(poly, Step(poly, reg, input), input) == reg
    ensures Step(poly, Unstep(poly, reg, input), input) == reg
  {
    UnstepUndoesStep(poly, reg, input);
    StepUndoesUnstep(poly, reg, input);
  }

  lemma {:induction false} StepLinear(poly: Bits, a: Bits, b: Bits, s: bool, t: bool)
    requires |poly| == |a| == |b| > 0
    ensures Step(poly, Xor(a, b), s != t) == Xor(Step(poly, a, s), Step(poly, b, t))
  {
  }

  /** For a fixed stream the register is carried one-to-one: no difference is ever lost. */
  lemma {:induction false} FeedReversible(poly: Bits, reg: Bits, stream: Bits)
    requires |poly| == |reg| > 0 && poly[|poly| - 1]
    ensures Unfeed(poly, Feed(poly, reg, stream), stream) == reg
    ensures Feed(poly, Unfeed(poly, reg, stream), stream) == reg
    decreases stream
  {
    if stream != [] {
      FeedReversible(poly, Step(poly, reg, stream[0]), stream[1..]);
      StepReversible(poly, reg, stream[0]);
      FeedReversible(poly, reg, stream[1..]);
      StepReversible(poly, Unfeed(poly, reg, stream[1..]), stream[0]);
    }
  }

  lemma {:induction false} FeedInjective(poly: Bits, a: Bits, b: Bits, stream: Bits)
    requires |poly| == |a| == |b| > 0 && poly[|poly| - 1]
    requires Feed(poly, a, stream) == Feed(poly, b, stream)
    ensures a == b
  {
    FeedReversible(poly, a, stream);
    FeedReversible(poly, b, stream);
  }

  lemma {:induction false} FeedLinear(poly: Bits, a: Bits, b: Bits, s: Bits, t: Bits)
    requires |poly| == |a| == |b| > 0 && |s| == |t|
    ensures Feed(poly, Xor(a, b), Xor(s, t)) == Xor(Feed(poly, a, s), Feed(poly, b, t))
    decreases s
  {
    if s != [] {
      StepLinear(poly, a, b, s[0], t[0]);
      FeedLinear(poly, Step(poly, a, s[0]), Step(poly, b, t[0]), s[1..], t[1..]);
      assert Xor(s, t)[1..] == Xor(s[1..], t[1..]);
    }
  }

  lemma {:induction false} FeedConcat(poly: Bits, reg: Bits, s: Bits, t: Bits)
    requires |poly| == |reg| > 0
    ensures Feed(poly, reg, s + t) == Feed(poly, Feed(poly, reg, s), t)
    decreases s
  {
    if s == [] {
      assert s + t == t;
    } else {
      assert (s + t)[0] == s[0] && (s + t)[1..] == s[1..] + t;
      FeedConcat(poly, Step(poly, reg, s[0]), s[1..], t);
    }
  }

  /** An input bit counts like the same bit standing at the top of the register. */
  lemma {:induction false} StepFed(poly: Bits, reg: Bits, s: Bits)
    requires |poly| == |reg| && 0 < |s| <= |reg|
    ensures Step(poly, Xor(reg, s + Falses(|reg| - |s|)), false)
            == Xor(Step(poly, reg, s[0]), s[1..] + Falses(|reg| - |s| + 1))
  {
    var wide := s + Falses(|reg| - |s|);
    assert wide[0] == s[0];
    assert wide[1..] + [false] == s[1..] + Falses(|reg| - |s| + 1);
  }

  /** Feeding bits is xoring them into the top of the register and then feeding zeros. */
  lemma {:induction false} FeedIsXor(poly: Bits, reg: Bits, s: Bits)
    requires |poly| == |reg| > 0 && |s| <= |reg|
    ensures Feed(poly, reg, s) == Feed(poly, Xor(reg, s + Falses(|reg| - |s|)), Falses(|s|))
    decreases s
  {
    if s == [] {
      assert Xor(reg, s + Falses(|reg|)) == reg;
    } else {
      StepFed(poly, reg, s);
      FeedIsXor(poly, Step(poly, reg, s[0]), s[1..]);
      assert Falses(|s|)[1..] == Falses(|s[1..]|);
    }
  }

  lemma {:induction false} XorCancel(a: Bits, b: Bits)
    requires |a| == |b|
    ensures Xor(a, Xor(a, b)) == b
  {
  }

  lemma {:induction false} WindowIsXor(poly: Bits, reg: Bits, s: Bits)
    requires |poly| == |reg| == |s| > 0
    ensures Feed(poly, reg, s) == Feed(poly, Xor(reg, s), Falses(|poly|))
  {
    FeedIsXor(poly, reg, s);
    assert s + Falses(|reg| - |s|) == s;
  }

  /** For a fixed register the check is one-to-one in a register's worth of input. */
  lemma {:induction false} WindowInjective(poly: Bits, reg: Bits, s: Bits, t: Bits)
    requires |poly| == |reg| == |s| == |t| > 0 && poly[|poly| - 1]
    requires Feed(poly, reg, s) == Feed(poly, reg, t)
    ensures s == t
  {
    WindowIsXor(poly, reg, s);
    WindowIsXor(poly, reg, t);
    FeedInjective(poly, Xor(reg, s), Xor(reg, t), Falses(|poly|));
    XorCancel(reg, s);
    XorCancel(reg, t);
  }

  /** Any target register can be reached, from any register, by a window of input. */
  lemma {:induction false} WindowSolvable(poly: Bits, reg: Bits, target: Bits) returns (s: Bits)
    requires |poly| == |reg| == |target| > 0 && poly[|poly| - 1]
    ensures |s| == |poly| && Feed(poly, reg, s) == target
  {
    var before := Unfeed(poly, target, Falses(|poly|));
    s := Xor(reg, before);
    WindowIsXor(poly, reg, s);
    XorCancel(reg, before);
    FeedReversible(poly, target, Falses(|poly|));
  }

  lemma {:induction false} FeedInParts(poly: Bits, reg: Bits, a: Bits, s: Bits, t: Bits, u: Bits)
    requires |poly| == |reg| > 0 && a == s + t + u
    ensures Feed(poly, reg, a) == Feed(poly, Feed(poly, Feed(poly, reg, s), t), u)
  {
    FeedConcat(poly, reg, s + t, u);
    FeedConcat(poly, reg, s, t);
  }

  /** Streams that share all but one window of the register's width leave different check values
      unless they are equal. */
  lemma {:induction false} WindowDetected(poly: Bits, seed: Bits, a: Bits, b: Bits, pre: Bits, s: Bits, t: Bits, post: Bits)
    requires |poly| == |seed| == |s| == |t| > 0 && poly[|poly| - 1]
    requires a == pre + s + post && b == pre + t + post
    requires Feed(poly, seed, a) == Feed(poly, seed, b)
    ensures s == t
  {
    var r := Feed(poly, seed, pre);
    FeedInParts(poly, seed, a, pre, s, post);
    FeedInParts(poly, seed, b, pre, t, post);
    FeedInjective(poly, Feed(poly, r, s), Feed(poly, r, t), post);
    WindowInjective(poly, r, s, t);
  }

  lemma {:induction false} ThreeParts(a: Bits, k: nat, m: nat)
    requires k <= m <= |a|
    ensures a == a[..k] + a[k..m] + a[m..]
  {
    assert a[..m] == a[..k] + a[k..m];
    assert a == a[..m] + a[m..];
  }

  /** Burst detection: equal check values of two streams that agree outside one register's width of
      consecutive bits mean equal streams. */
  lemma {:induction false} BurstDetected(poly: Bits, seed: Bits, a: Bits, b: Bits, k: nat)
    requires |poly| == |seed| > 0 && poly[|poly| - 1]
    requires |a| == |b| && k + |poly| <= |a|
    requires a[..k] == b[..k] && a[k + |poly|..] == b[k + |poly|..]
    requires Feed(poly, seed, a) == Feed(poly, seed, b)
    ensures a == b
  {
    var m := k + |poly|;
    var r := Feed(poly, seed, a[..k]);
    ThreeParts(a, k, m);
    ThreeParts(b, k, m);
    FeedInParts(poly, seed, a, a[..k], a[k..m], a[m..]);
    FeedInParts(poly, seed, b, b[..k], b[k..m], b[m..]);
    FeedInjective(poly, Feed(poly, r, a[k..m]), Feed(poly, r, b[k..m]), a[m..]);
    WindowInjective(poly, r, a[k..m], b[k..m]);
  }

  // ---------------------------------------------------------------- the register is a remainder

  /** x^n + poly */
  function Generator(poly: Bits): Bits { [true] + poly }

  /** The bits that are shifted out: those of the quotient. */
  function Quotient(poly: Bits, s: Bits): (q: Bits)
    requires |poly| > 0
    ensures |q| == |s|
  {
    if s == [] then []
    else
      var rest := s[..|s| - 1];
      Quotient(poly, rest) + [Feed(poly, Falses(|poly|), rest)[0] != s[|s| - 1]]
  }

  /** Coefficient k of s x^n is that of the product with the generator and that of the register. */
  lemma {:induction false} FeedDivides(poly: Bits, s: Bits, k: nat)
    requires |poly| > 0 && k < |s| + |poly|
    ensures (s + Falses(|poly|))[k] ==
            (Convolution(Quotient(poly, s), Generator(poly), k, |s|) !=
             (|s| <= k && Feed(poly, Falses(|poly|), s)[k - |s|]))
  {
    if s != [] {
      var m, rest, c := |s| - 1, s[..|s| - 1], s[|s| - 1];
      var r, q, g := Feed(poly, Falses(|poly|), rest), Quotient(poly, rest), Generator(poly);
      assert s == rest + [c];
      FeedConcat(poly, Falses(|poly|), rest, [c]);
      assert Feed(poly, Falses(|poly|), s) == Step(poly, r, c);
      var q' := Quotient(poly, s);
      assert q' == q + [r[0] != c] && q'[..m] == q[..m];
      ConvolutionOfPrefix(q', q, g, k, m);
      if k < m + |poly| {
        FeedDivides(poly, rest, k);
      } else {
        ConvolutionBeyond(q, g, k, m);
      }
    }
  }

  /** A stream fed to an empty register leaves the remainder of s x^n divided by x^n + poly. */
  lemma {:induction false} FeedIsRemainder(poly: Bits, s: Bits, r: Bits)
    requires |poly| > 0
    ensures Feed(poly, Falses(|poly|), s) == r <==> IsRemainder(r, s + Falses(|poly|), Generator(poly))
  {
    var d, g, q, f := s + Falses(|poly|), Generator(poly), Quotient(poly, s), Feed(poly, Falses(|poly|), s);
    forall k: nat | k < |d| ensures d[k] == (Times(q, g)[k] != (Falses(|q|) + f)[k]) {
      FeedDivides(poly, s, k);
    }
    assert Divides(d, g, q, f);
    if IsRemainder(r, d, g) {
      var p :| Divides(d, g, p, r);
      RemainderUnique(d, g, p, q, r, f);
    }
  }

  /** A register that is not empty counts like the same bits xored into the first of the stream. */
  lemma {:induction false} SeedIsXor(poly: Bits, seed: Bits, s: Bits)
    requires |poly| == |seed| > 0 && |s| >= |seed|
    ensures Feed(poly, seed, s) == Feed(poly, Falses(|poly|), Xor(s, seed + Falses(|s| - |seed|)))
  {
    var n := |seed|;
    var a, b := s[..n], s[n..];
    var t := Xor(s, seed + Falses(|s| - n));
    assert s == a + b && t == Xor(a, seed) + b;
    FeedConcat(poly, seed, a, b);
    FeedConcat(poly, Falses(n), Xor(a, seed), b);
    WindowIsXor(poly, seed, a);
    WindowIsXor(poly, Falses(n), Xor(a, seed));
    assert Xor(seed, a) == Xor(Falses(n), Xor(a, seed));
  }
}
