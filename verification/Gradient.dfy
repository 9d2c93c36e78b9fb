/** Fixed-point colour gradients (libraries/FastLED/colorutils.cpp:65-107).

    A channel is stepped in 8.8 fixed point: accum88 is a uint16_t, saccum87 an int16_t.  Doubling the
    step may overflow the int16_t; all arithmetic is written out modulo 2^16. */
module Gradient {
  import opened Arithmetic
  import opened Octets

  // ---------------------------------------------------------------- machine arithmetic

  function ToInt16(x: int): (y: int)
    ensures -0x8000 <= y < 0x8000 && (x - y) % 0x1_0000 == 0
    ensures -0x8000 <= x < 0x8000 ==> y == x
  {
    (x + 0x8000) % 0x1_0000 - 0x8000
  }

  function ToUint16(x: int): (y: int)
    ensures 0 <= y < 0x1_0000
    ensures 0 <= x < 0x1_0000 ==> y == x
  {
    x % 0x1_0000
  }

  /** C division: towards zero. */
  function Quotient(a: int, d: int): int
    requires d != 0
  {
    if a >= 0 then (if d > 0 then a / d else -(a / -d)) else (if d > 0 then -((-a) / d) else (-a) / -d)
  }

  // ---------------------------------------------------------------- one channel

  /** The step of a channel as the code computes it, int16_t overflow included. */
  function Delta(start: Byte, end: Byte, divisor: int): int
    requires divisor != 0
  {
    ToInt16(Quotient(ToInt16((end - start) * 128), divisor) * 2)
  }

  /** The uint16_t distance as an int16_t. */
  function Divisor(pixeldistance: Word16): (d: int)
    ensures d != 0
  {
    ToInt16(if pixeldistance != 0 then pixeldistance else 1)
  }

  /** The accumulator of a channel at pixel k of a gradient over n + 1 pixels. */
  function Accumulator(start: Byte, end: Byte, n: Word16, k: nat): int {
    ToUint16(256 * start + k * Delta(start, end, Divisor(n)))
  }

  function Channel(start: Byte, end: Byte, n: Word16, k: nat): (c: int)
    ensures 0 <= c < 256
  {
    Accumulator(start, end, n, k) / 256
  }

  function ColorAt(start: Color, end: Color, n: Word16, k: nat): Color {
    Color(Channel(start.r, end.r, n, k), Channel(start.g, end.g, n, k), Channel(start.b, end.b, n, k))
  }

  // ---------------------------------------------------------------- the overflow is harmless

  /** The step without overflow, in 1/256 of a channel unit. */
  function ExactStep(start: Byte, end: Byte, n: nat): int
    requires n > 0
  {
    if start <= end then 2 * ((end - start) * 128 / n) else -2 * ((start - end) * 128 / n)
  }

  function ExactAccumulator(start: Byte, end: Byte, n: nat, k: nat): int
    requires n > 0
  {
    256 * start + k * ExactStep(start, end, n)
  }

  /** All n steps together fall short of the distance by less than 2 n. */
  lemma {:induction false} StepsFallShort(start: Byte, end: Byte, n: nat)
    requires n > 0
    ensures start <= end ==> 0 <= 256 * (end - start) - n * ExactStep(start, end, n) <= 2 * (n - 1)
    ensures start > end ==> 0 <= 256 * (start - end) + n * ExactStep(start, end, n) <= 2 * (n - 1)
  {
    var a := if start <= end then (end - start) * 128 else (start - end) * 128;
    var q, r := a / n, a % n;
    assert a == n * q + r;
    assert n * (2 * q) == 2 * (n * q) && n * (-2 * q) == -2 * (n * q);
  }

  lemma {:induction false} MultiplyMonotone(k: nat, l: nat, x: int)
    requires k <= l
    ensures x >= 0 ==> 0 <= k * x <= l * x
    ensures x <= 0 ==> l * x <= k * x <= 0
  {
  }

  /** The exact accumulator never leaves the band between the two colours. */
  lemma {:induction false} ExactBetween(start: Byte, end: Byte, n: nat, k: nat)
    requires n > 0 && k <= n
    ensures start <= end ==> 256 * start <= ExactAccumulator(start, end, n, k) <= 256 * end
    ensures start > end ==> 256 * end <= ExactAccumulator(start, end, n, k) <= 256 * start
  {
    StepSign(start, end, n);
    StepsFallShort(start, end, n);
    MultiplyMonotone(k, n, ExactStep(start, end, n));
  }

  lemma {:induction false} StepSign(start: Byte, end: Byte, n: nat)
    requires n > 0
    ensures start <= end ==> 0 <= ExactStep(start, end, n) <= 0xff00
    ensures start > end ==> -0xff00 <= ExactStep(start, end, n) <= 0
  {
    var a := if start <= end then (end - start) * 128 else (start - end) * 128;
    QuotientSmaller(a, n);
  }

  lemma {:induction false} QuotientSmaller(a: nat, n: nat)
    requires n > 0
    ensures 0 <= a / n <= a
  {
    assert a == n * (a / n) + a % n;
    assert n * (a / n) >= a / n by { MultiplyMonotone(1, n, a / n); }
  }

  /** As long as the span fits the int16_t divisor, the accumulator that wraps is the exact one. */
  lemma {:induction false} AccumulatorIsExact(start: Byte, end: Byte, n: Word16, k: nat)
    requires 0 < n <= 0x7fff && k <= n
    ensures Accumulator(start, end, n, k) == ExactAccumulator(start, end, n, k)
  {
    assert Delta(start, end, Divisor(n)) == ToInt16(ExactStep(start, end, n));
    ShiftedCongruent(256 * start, ExactStep(start, end, n), Delta(start, end, Divisor(n)), k);
    ExactBetween(start, end, n, k);
  }

  lemma {:induction false} ShiftedCongruent(a: int, x: int, y: int, k: int)
    requires (x - y) % 0x1_0000 == 0
    ensures ToUint16(a + k * x) == ToUint16(a + k * y)
  {
    var q := (x - y) / 0x1_0000;
    assert x == y + 0x1_0000 * q;
    assert k * x == k * y + 0x1_0000 * (k * q);
    var b := a + k * y;
    QuotientUnique(a + k * x, 0x1_0000, b / 0x1_0000 + k * q, b % 0x1_0000);
  }

  // ---------------------------------------------------------------- what a gradient looks like

  /** How far the last pixel may be from the end colour. */
  function Tolerance(n: nat): nat { if n == 0 then 255 else (2 * (n - 1) + 255) / 256 }

  /** A channel starts exactly, runs in one direction, never leaves the band between its two values,
      and comes to within the tolerance of its end. */
  lemma {:induction false} ChannelIsFaithful(start: Byte, end: Byte, n: Word16, k: nat, l: nat)
    requires 0 < n <= 0x7fff && k <= l <= n
    ensures Channel(start, end, n, 0) == start
    ensures start <= end ==> start <= Channel(start, end, n, k) <= Channel(start, end, n, l) <= end
    ensures start >= end ==> start >= Channel(start, end, n, k) >= Channel(start, end, n, l) >= end
    ensures end - Channel(start, end, n, n) <= Tolerance(n) && Channel(start, end, n, n) - end <= Tolerance(n)
  {
    AccumulatorIsExact(start, end, n, 0);
    AccumulatorIsExact(start, end, n, k);
    AccumulatorIsExact(start, end, n, l);
    AccumulatorIsExact(start, end, n, n);
    ExactBetween(start, end, n, k);
    ExactBetween(start, end, n, l);
    StepSign(start, end, n);
    StepsFallShort(start, end, n);
    MultiplyMonotone(k, l, ExactStep(start, end, n));
  }

  lemma {:induction false} FirstIsExact(start: Color, end: Color, n: Word16)
    ensures ColorAt(start, end, n, 0) == start
  {
  }

  // ---------------------------------------------------------------- spans beyond the int16_t range

  /** Beyond the int16_t range the divisor changes sign, and the fill leaves the band at once. */
  lemma {:induction false} LongSpanLeavesBand()
    ensures Channel(0, 200, 40000, 1) == 255
  {
    assert Divisor(40000) == -25536;
    assert Quotient(200 * 128, -25536) == -1;
  }

  /** Pixels k and l of a channel are in order and between its ends. */
  predicate InOrder(start: Byte, end: Byte, n: Word16, k: nat, l: nat) {
    var c, d := Channel(start, end, n, k), Channel(start, end, n, l);
    (start <= end ==> start <= c <= d <= end) && (start >= end ==> start >= c >= d >= end)
  }

  ghost predicate Faithful(start: Byte, end: Byte, n: Word16) {
    forall k: nat, l: nat :: k <= l <= n ==> InOrder(start, end, n, k, l)
  }

  /** How far apart two colours are, in steps of a long gradient. */
  function LongStep(start: Byte, end: Byte, n: Word16): (q: nat)
    requires 0x7fff < n < 0xffff
  {
    var a: int, m: int := (if start <= end then end - start else start - end) * 128, 0x1_0000 - n;
    LongQuotient(a, m);
    a / m
  }

  lemma {:induction false} LongQuotient(a: int, m: int)
    requires 0 <= a <= 32640 && m >= 2
    ensures 0 <= a / m <= 16320 && (a / m == 0 <==> a < m)
  {
    var q := a / m;
    assert a == m * q + a % m;
    QuotientSmaller(a, m);
    MultiplyMonotone(2, m, q);
    if q >= 1 {
      MultiplyMonotone(1, q, m);
    }
  }

  lemma {:induction false} LongDelta(start: Byte, end: Byte, n: Word16)
    requires 0x7fff < n < 0xffff
    ensures LongStep(start, end, n) <= 16320
    ensures Delta(start, end, Divisor(n)) ==
            if start <= end then 0 - 2 * LongStep(start, end, n) else 2 * LongStep(start, end, n)
    ensures LongStep(start, end, n) == 0 <==>
            128 * (if start <= end then end - start else start - end) < 0x1_0000 - n
  {
    var m: int := 0x1_0000 - n;
    assert Divisor(n) == -m;
    var a: int := (if start <= end then end - start else start - end) * 128;
    LongQuotient(a, m);
    assert ToInt16((end - start) * 128) == if start <= end then a else -a;
  }

  lemma {:induction false} ScaledTwice(k: int, q: int)
    ensures k * (0 - 2 * q) == 0 - 2 * (k * q)
    ensures k * (2 * q) == 2 * (k * q)
  {
  }

  lemma {:induction false} LongAccumulator(start: Byte, end: Byte, n: Word16, k: nat)
    requires 0x7fff < n < 0xffff
    ensures var t := 2 * (k * LongStep(start, end, n));
            Accumulator(start, end, n, k) == ToUint16(if start <= end then 256 * start - t else 256 * start + t)
  {
    var x: int, q: int := Delta(start, end, Divisor(n)), LongStep(start, end, n);
    assert x == if start <= end then 0 - 2 * q else 2 * q by { LongDelta(start, end, n); }
    ScaledTwice(k, q);
    assert Accumulator(start, end, n, k) == ToUint16(256 * start + k * x);
  }

  /** The least number of steps that make up a whole channel unit. */
  lemma {:induction false} UnitSteps(q: nat) returns (j: nat)
    requires 1 <= q <= 16320
    ensures 1 <= j <= 128 && 256 <= 2 * (q * j) < 256 + 2 * q
  {
    j := (127 + q) / q;
    var r := (127 + q) % q;
    assert q * j == 127 + q - r;
    assert j >= 1 by { assert j == 0 ==> q * j == 0; }
    assert j <= 128 by { assert j > 128 ==> q * j >= q * 129; assert q * 129 >= 128 + q; }
  }

  /** A value out of the band, or two values in the wrong order, spoil a channel. */
  lemma {:induction false} Spoilt(start: Byte, end: Byte, n: Word16, k: nat, l: nat)
    requires k <= l <= n && start != end
    requires var c, d := Accumulator(start, end, n, k) / 256, Accumulator(start, end, n, l) / 256;
             if start < end then c < start || d < c else c > start || d > c
    ensures !Faithful(start, end, n)
  {
    assert !InOrder(start, end, n, k, l);
  }

  /** The channel of a long gradient, which runs away from its end in steps of 2 q. */
  function LongChannel(start: Byte, q: nat, up: bool, k: nat): int {
    ToUint16(if up then 256 * start + 2 * (k * q) else 256 * start - 2 * (k * q)) / 256
  }

  lemma {:induction false} RunsDown(start: Byte, q: nat) returns (k: nat, l: nat)
    requires 1 <= q <= 16320
    ensures k <= l <= 256 && (LongChannel(start, q, false, k) < start ||
                              LongChannel(start, q, false, l) < LongChannel(start, q, false, k))
  {
    k, l := 1, 1;
    if 256 * start < 2 * q {
      var j := UnitSteps(q);
      l := 1 + j;
      var t := q * j;
      assert l * q == q + t;
      var v := 256 * start - 2 * q;
      assert ToUint16(v) == v + 0x1_0000 && ToUint16(v - 2 * t) == v - 2 * t + 0x1_0000;
    }
  }

  lemma {:induction false} RunsUp(start: Byte, q: nat) returns (k: nat, l: nat)
    requires 1 <= q <= 16320
    ensures k <= l <= 256 && (LongChannel(start, q, true, k) > start ||
                              LongChannel(start, q, true, l) > LongChannel(start, q, true, k))
  {
    var j := UnitSteps(q);
    k, l := j, j;
    var t := q * j;
    if 256 * start + 2 * t >= 0x1_0000 {
      l := 2 * j;
      assert l * q == 2 * t;
      var v := 256 * start + 2 * t;
      assert ToUint16(v) == v - 0x1_0000 && ToUint16(v + 2 * t) == v + 2 * t - 0x1_0000;
    }
  }

  lemma {:induction false} LongFails(start: Byte, end: Byte, n: Word16)
    requires 0x7fff < n < 0xffff && start != end && LongStep(start, end, n) > 0
    ensures !Faithful(start, end, n)
  {
    var q := LongStep(start, end, n);
    assert q <= 16320 by { LongDelta(start, end, n); }
    var k, l;
    if start < end {
      k, l := RunsDown(start, q);
    } else {
      k, l := RunsUp(start, q);
    }
    LongAccumulator(start, end, n, k);
    LongAccumulator(start, end, n, l);
    Spoilt(start, end, n, k, l);
  }

  /** A channel moves from its start towards its end and not beyond exactly when the span fits the int16_t
      divisor, or the two values are so close that the channel does not move at all. */
  lemma {:induction false} FaithfulIff(start: Byte, end: Byte, n: Word16)
    requires 0 < n < 0xffff
    ensures Faithful(start, end, n) <==>
              n <= 0x7fff || 128 * (if start <= end then end - start else start - end) < 0x1_0000 - n
  {
    if n <= 0x7fff {
      forall k: nat, l: nat | k <= l <= n ensures InOrder(start, end, n, k, l) {
        ChannelIsFaithful(start, end, n, k, l);
      }
    } else {
      LongDelta(start, end, n);
      if LongStep(start, end, n) == 0 {
        forall k: nat, l: nat | k <= l <= n ensures InOrder(start, end, n, k, l) {
          assert k * 0 == 0 && l * 0 == 0;
        }
      } else if start != end {
        LongFails(start, end, n);
      }
    }
  }

  // ---------------------------------------------------------------- fill_gradient_RGB

  /** Pixels lo to hi, hi excluded, are those of a gradient over n + 1 pixels; the others are as before. */
  ghost predicate Filled(before: seq<Color>, after: seq<Color>, lo: nat, from: Color, hi: nat, to: Color, n: Word16) {
    && |after| == |before|
    && forall i :: 0 <= i < |after| ==>
         after[i] == if lo <= i < hi then ColorAt(from, to, n, i - lo) else before[i]
  }

  /** endpos is at most 65534: a uint16_t loop counter never exceeds 65535. */
  method FillGradientRGB(leds: array<Color>, startpos0: nat, startcolor0: Color, endpos0: nat, endcolor0: Color)
    requires startpos0 < leds.Length && endpos0 < leds.Length && startpos0 < 0xffff && endpos0 < 0xffff
    modifies leds
    ensures var (lo, from, hi, to) := Straightened(startpos0, startcolor0, endpos0, endcolor0);
            Filled(old(leds[..]), leds[..], lo, from, hi + 1, to, hi - lo)
  {
    var startpos, startcolor, endpos, endcolor := startpos0, startcolor0, endpos0, endcolor0;
    if endpos < startpos {
      startpos, startcolor, endpos, endcolor := endpos, endcolor, startpos, startcolor;
    }
    FillAscending(leds, startpos, startcolor, endpos, endcolor);
  }

  method FillAscending(leds: array<Color>, startpos: nat, startcolor: Color, endpos: nat, endcolor: Color)
    requires startpos <= endpos < leds.Length && endpos < 0xffff
    modifies leds
    ensures Filled(old(leds[..]), leds[..], startpos, startcolor, endpos + 1, endcolor, endpos - startpos)
  {
    var pixeldistance: Word16 := endpos - startpos;
    var divisor := ToInt16(if pixeldistance != 0 then pixeldistance else 1);
    var rdelta := Delta(startcolor.r, endcolor.r, divisor);
    var gdelta := Delta(startcolor.g, endcolor.g, divisor);
    var bdelta := Delta(startcolor.b, endcolor.b, divisor);
    var r88 := startcolor.r * 256;
    var g88 := startcolor.g * 256;
    var b88 := startcolor.b * 256;
    ghost var before := leds[..];
    var i: nat := startpos;
    while i <= endpos
      invariant startpos <= i <= endpos + 1
      invariant r88 == Accumulator(startcolor.r, endcolor.r, pixeldistance, i - startpos)
      invariant g88 == Accumulator(startcolor.g, endcolor.g, pixeldistance, i - startpos)
      invariant b88 == Accumulator(startcolor.b, endcolor.b, pixeldistance, i - startpos)
      invariant Filled(before, leds[..], startpos, startcolor, i, endcolor, pixeldistance)
    {
      ghost var now := leds[..];
      leds[i] := Color(r88 / 256, g88 / 256, b88 / 256);
      FilledFurther(before, now, startpos, startcolor, i, endcolor, pixeldistance);
      assert leds[..] == now[i := ColorAt(startcolor, endcolor, pixeldistance, i - startpos)];
      r88 := AddTo(r88, rdelta, startcolor.r, endcolor.r, pixeldistance, i - startpos);
      g88 := AddTo(g88, gdelta, startcolor.g, endcolor.g, pixeldistance, i - startpos);
      b88 := AddTo(b88, bdelta, startcolor.b, endcolor.b, pixeldistance, i - startpos);
      i := i + 1;
    }
  }

  lemma {:induction false} FilledFurther(before: seq<Color>, now: seq<Color>, lo: nat, from: Color, i: nat, to: Color,
                                         n: Word16)
    requires lo <= i < |now| && Filled(before, now, lo, from, i, to, n)
    ensures Filled(before, now[i := ColorAt(from, to, n, i - lo)], lo, from, i + 1, to, n)
  {
  }

  /** One accumulator addition. */
  method AddTo(acc: int, delta: int, ghost start: Byte, ghost end: Byte, ghost n: Word16, ghost k: nat)
    returns (next: int)
    requires acc == Accumulator(start, end, n, k) && delta == Delta(start, end, Divisor(n))
    ensures next == Accumulator(start, end, n, k + 1)
  {
    next := ToUint16(acc + delta);
    NextAccumulator(start, end, n, k);
  }

  /** The two ends in ascending order. */
  function Straightened(startpos: nat, startcolor: Color, endpos: nat, endcolor: Color): (nat, Color, nat, Color) {
    if endpos < startpos then (endpos, endcolor, startpos, startcolor) else (startpos, startcolor, endpos, endcolor)
  }

  lemma {:induction false} NextAccumulator(start: Byte, end: Byte, n: Word16, k: nat)
    ensures ToUint16(Accumulator(start, end, n, k) + Delta(start, end, Divisor(n))) == Accumulator(start, end, n, k + 1)
  {
    var d := Delta(start, end, Divisor(n));
    var x := 256 * start + k * d;
    assert 256 * start + (k + 1) * d == x + d;
    var y := x % 0x1_0000 + d;
    QuotientUnique(x + d, 0x1_0000, x / 0x1_0000 + y / 0x1_0000, y % 0x1_0000);
  }
}
