/** The power limiter (libraries/FastLED/power_mgt.cpp:50-77, 84-95). */
module Power {
  import opened Octets

  /** The sums of the three channels, which a pixel drives with 80, 55 and 75 mW at full brightness. */
  datatype Sums = Sums(r: nat, g: nat, b: nat)

  function Total(leds: seq<Color>): Sums {
    if leds == [] then Sums(0, 0, 0)
    else
      var s, led := Total(leds[..|leds| - 1]), leds[|leds| - 1];
      Sums(s.r + led.r, s.g + led.g, s.b + led.b)
  }

  /** What the strip draws at full brightness, in 1/256 mW. */
  function Demand(leds: seq<Color>): nat {
    var s := Total(leds);
    80 * s.r + 55 * s.g + 75 * s.b + 1280 * |leds|
  }

  lemma {:induction false} TotalBound(leds: seq<Color>)
    ensures var s := Total(leds); s.r <= 255 * |leds| && s.g <= 255 * |leds| && s.b <= 255 * |leds|
  {
    if leds != [] {
      TotalBound(leds[..|leds| - 1]);
    }
  }

  /** calculate_unscaled_power_mW, in unbounded arithmetic. */
  function Unscaled(leds: seq<Color>): nat {
    var s := Total(leds);
    80 * s.r / 256 + 55 * s.g / 256 + 75 * s.b / 256 + 5 * |leds|
  }

  /** Each of the three divisions loses less than one milliwatt; 65535 white pixels draw the most. */
  lemma {:induction false} UnscaledIsDemand(leds: seq<Color>)
    ensures 256 * Unscaled(leds) <= Demand(leds) < 256 * (Unscaled(leds) + 3)
    ensures |leds| < 0x1_0000 ==> Unscaled(leds) <= 14_036_265
  {
    TotalBound(leds);
  }

  /** In 32 bits nothing overflows. */
  method CalculateUnscaledPower(leds: array<Color>) returns (total: nat)
    requires leds.Length < 0x1_0000
    ensures total == Unscaled(leds[..])
  {
    var red32: nat, green32: nat, blue32: nat := 0, 0, 0;
    var p: nat := 0;
    var count: nat := leds.Length;
    while count > 0
      invariant p <= leds.Length && p + count == leds.Length
      invariant Sums(red32, green32, blue32) == Total(leds[..p])
    {
      TotalBound(leds[..p]);
      assert leds[..p + 1][..p] == leds[..p];
      red32 := Wrap32(red32 + leds[p].r);
      green32 := Wrap32(green32 + leds[p].g);
      blue32 := Wrap32(blue32 + leds[p].b);
      p := p + 1;
      count := count - 1;
    }
    assert leds[..p] == leds[..];
    TotalBound(leds[..]);
    red32 := Wrap32(red32 * 80);
    green32 := Wrap32(green32 * 55);
    blue32 := Wrap32(blue32 * 75);
    red32 := red32 / 256;
    green32 := green32 / 256;
    blue32 := blue32 / 256;
    total := Wrap32(red32 + green32 + blue32 + 5 * leds.Length);
  }

  // ---------------------------------------------------------------- the brightness

  lemma {:induction false} Ordered(a: int, b: int, t: int)
    requires t > 0
    ensures a < b <==> a * t < b * t
    ensures a <= b <==> a * t <= b * t
  {
    assert a < b ==> (b - a) * t > 0;
    assert b < a ==> (a - b) * t > 0;
  }

  /** What a brightness draws, in whole milliwatts. */
  function Drawn(total: nat, brightness: nat): (power: nat)
    ensures 256 * power <= total * brightness < 256 * (power + 1)
  {
    total * brightness / 256
  }

  /** A brightness that asks for no more than target * max / requested stays within the budget ... */
  lemma {:induction false} WithinBudget(total: nat, target: nat, max: nat, r: nat)
    requires 0 < target && r <= target && r * Drawn(total, target) <= target * max
    ensures Drawn(total, r) <= max
  {
    if r > 0 {
      var requested := Drawn(total, target);
      var limit := 256 * (max + 1);
      assert (total * r) * target == (total * target) * r;
      Ordered(total * target, 256 * (requested + 1), r);
      assert 256 * (requested + 1) * r == 256 * (r * requested) + 256 * r;
      assert limit * target == 256 * (target * max) + 256 * target;
      Ordered(total * r, limit, target);
    }
  }

  /** ... and one that asks for more uses it up. */
  lemma {:induction false} UsesBudget(total: nat, target: nat, max: nat, r: nat)
    requires 0 < target && target * max < r * Drawn(total, target)
    ensures 256 * max < r * total
  {
    var requested := Drawn(total, target);
    assert r > 0 by { assert r == 0 ==> r * requested == 0; }
    Ordered(256 * requested, total * target + 1, r);
    assert 256 * requested * r == 256 * (r * requested);
    assert 256 * requested * r <= total * target * r by { Ordered(256 * requested, total * target, r); }
    assert (r * total) * target == total * target * r;
    assert 256 * max * target == 256 * (target * max);
    Ordered(256 * max, r * total, target);
  }

  lemma {:induction false} DivisionBounds(a: nat, d: nat)
    requires d > 0
    ensures a / d * d <= a < (a / d + 1) * d
  {
    assert a == d * (a / d) + a % d;
  }

  /** Brightness r draws at most max milliwatts and is at most the target.  The limiter engages exactly when
      the target draws more; then it lowers the brightness, to one step below using up the budget. */
  ghost predicate Recommended(total: nat, target: nat, max: nat, r: nat) {
    && r <= target
    && Drawn(total, r) <= max
    && (r == target <==> Drawn(total, target) <= max)
    && (r < target ==> 256 * max < (r + 1) * total)
  }

  lemma {:induction false} LimitIsRecommended(total: nat, target: nat, max: nat)
    requires Drawn(total, target) > max
    ensures Recommended(total, target, max, target * max / Drawn(total, target))
  {
    var requested := Drawn(total, target);
    var wanted := target * max / requested;
    assert target > 0 by { assert target == 0 ==> total * target == 0; }
    DivisionBounds(target * max, requested);
    assert target * max < target * requested;
    Ordered(wanted, target, requested);
    WithinBudget(total, target, max, wanted);
    UsesBudget(total, target, max, wanted + 1);
  }

  lemma {:induction false} NoLimitIsRecommended(total: nat, target: nat, max: nat)
    requires Drawn(total, target) <= max
    ensures Recommended(total, target, max, target)
  {
  }

  lemma {:induction false} ProductBelow(a: nat, b: nat, c: nat, d: nat)
    requires a <= c && b <= d
    ensures a * b <= c * d
  {
    assert a * b <= c * b <= c * d;
  }

  lemma {:induction false} ProductsFit(total: nat, target: Byte, max: nat)
    requires total <= 14_036_265
    ensures Wrap32(total * target) == total * target
    ensures Drawn(total, target) > max ==> Wrap32(target * max) == target * max
  {
    ProductBelow(total, target, 14_036_265, 255);
    if Drawn(total, target) > max {
      ProductBelow(target, max, 255, 14_036_265);
    }
  }

  /** The computation in 32 bits. */
  function Limited(total: nat, target: Byte, max: nat): nat {
    var requested := Wrap32(total * target) / 256;
    if requested > max then Wrap32(target * max) / requested else target
  }

  lemma {:induction false} LimitedIsRecommended(total: nat, target: Byte, max: nat)
    requires total <= 14_036_265
    ensures Limited(total, target, max) < 256 && Recommended(total, target, max, Limited(total, target, max))
  {
    ProductsFit(total, target, max);
    if Drawn(total, target) > max {
      LimitIsRecommended(total, target, max);
    } else {
      NoLimitIsRecommended(total, target, max);
    }
  }

  method CalculateMaxBrightness(leds: array<Color>, target: Byte, max: nat) returns (r: Byte)
    requires leds.Length < 0x1_0000 && max < 0x1_0000_0000
    ensures Recommended(Unscaled(leds[..]), target, max, r)
  {
    var total := CalculateUnscaledPower(leds);
    UnscaledIsDemand(leds[..]);
    LimitedIsRecommended(total, target, max);
    var requested := Wrap32(total * target) / 256;
    r := target;
    if requested > max {
      r := Wrap32(target * max) / requested;
    }
    assert r == Limited(total, target, max);
  }
}
