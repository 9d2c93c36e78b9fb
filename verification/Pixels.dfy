/** Addressing the pixels of a matrix (src/leds_driver.cpp). */
module Pixels {
  import opened Arithmetic
  import opened Octets

  /** The part of Config that the driver uses: deviceType is 1 for a strip, 2 for a matrix wired in zigzag and
      3 for one with parallel rows; matrix is one of the eight ways to turn and flip it. */
  datatype Config = Config(deviceType: Byte, matrix: Byte, width: int, length: int)

  ghost predicate Valid(cfg: Config) {
    1 <= cfg.matrix <= 8 && cfg.width >= 1 && cfg.length >= 1
  }

  predicate Inside(cfg: Config, x: int, y: int) {
    0 <= x < cfg.width && 0 <= y < cfg.length
  }

  predicate Sideways(cfg: Config) {
    cfg.matrix == 2 || cfg.matrix == 4 || cfg.matrix == 6 || cfg.matrix == 8
  }

  /** The pixels in one run of the strip, and the number of runs. */
  function MatrixW(cfg: Config): int { if Sideways(cfg) then cfg.length else cfg.width }

  function MatrixH(cfg: Config): int { if Sideways(cfg) then cfg.width else cfg.length }

  /** thisX and thisY. */
  function Turned(cfg: Config, x: int, y: int): (int, int)
    requires Valid(cfg)
  {
    match cfg.matrix
    case 1 => (x, y)
    case 2 => (y, x)
    case 3 => (x, cfg.length - y - 1)
    case 4 => (cfg.length - y - 1, x)
    case 5 => (cfg.width - x - 1, cfg.length - y - 1)
    case 6 => (cfg.length - y - 1, cfg.width - x - 1)
    case 7 => (cfg.width - x - 1, y)
    case _ => (y, cfg.width - x - 1)
  }

  predicate Forwards(cfg: Config, run: int) {
    run % 2 == 0 || cfg.deviceType != 2
  }

  /** The number of pixel u of run v, for runs of w pixels. */
  function Number(forwards: bool, w: int, u: int, v: int): int {
    if forwards then v * w + u else v * w + w - u - 1
  }

  function GetPix(cfg: Config, x: int, y: int): (p: nat)
    requires Valid(cfg)
    ensures p < 0x1_0000
  {
    var t := Turned(cfg, x, y);
    Number(Forwards(cfg, t.1), MatrixW(cfg), t.0, t.1) % 0x1_0000
  }

  // ---------------------------------------------------------------- the mapping is a bijection

  /** The way back from thisX and thisY. */
  function Unturned(cfg: Config, u: int, v: int): (int, int)
    requires Valid(cfg)
  {
    match cfg.matrix
    case 1 => (u, v)
    case 2 => (v, u)
    case 3 => (u, cfg.length - v - 1)
    case 4 => (v, cfg.length - u - 1)
    case 5 => (cfg.width - u - 1, cfg.length - v - 1)
    case 6 => (cfg.width - v - 1, cfg.length - u - 1)
    case 7 => (cfg.width - u - 1, v)
    case _ => (cfg.width - v - 1, u)
  }

  /** The coordinates of the pixel with number p. */
  function Coordinates(cfg: Config, p: nat): (int, int)
    requires Valid(cfg)
  {
    var w := MatrixW(cfg);
    var run, along := p / w, p % w;
    Unturned(cfg, if Forwards(cfg, run) then along else w - 1 - along, run)
  }

  lemma {:induction false} TurnedInside(cfg: Config, x: int, y: int)
    requires Valid(cfg)
    ensures var t := Turned(cfg, x, y);
            && Unturned(cfg, t.0, t.1) == (x, y)
            && (Inside(cfg, x, y) <==> 0 <= t.0 < MatrixW(cfg) && 0 <= t.1 < MatrixH(cfg))
  {
  }

  lemma {:induction false} UnturnedInside(cfg: Config, u: int, v: int)
    requires Valid(cfg)
    ensures var c := Unturned(cfg, u, v);
            && Turned(cfg, c.0, c.1) == (u, v)
            && (Inside(cfg, c.0, c.1) <==> 0 <= u < MatrixW(cfg) && 0 <= v < MatrixH(cfg))
  {
  }

  lemma {:induction false} NumberBelow(u: int, v: int, w: int, h: int)
    requires 0 <= u < w && 0 <= v < h
    ensures 0 <= v * w + u < w * h
    ensures (v * w + u) / w == v && (v * w + u) % w == u
  {
    assert v * w <= (h - 1) * w;
    assert 0 <= v * w;
    QuotientUnique(v * w + u, w, v, u);
  }

  lemma {:induction false} RunBelow(p: nat, w: int, h: int)
    requires w > 0 && p < w * h
    ensures 0 <= p / w < h && p == p / w * w + p % w
  {
    var q := p / w;
    assert q >= h ==> q * w >= h * w;
    assert q * w >= 0;
  }

  lemma {:induction false} AreaIs(cfg: Config)
    ensures MatrixW(cfg) * MatrixH(cfg) == cfg.width * cfg.length
  {
  }

  lemma {:induction false} NumberOfTurned(cfg: Config, u: int, v: int)
    requires Valid(cfg) && 0 <= u < MatrixW(cfg) && 0 <= v < MatrixH(cfg)
    ensures var w := MatrixW(cfg);
            var p := Number(Forwards(cfg, v), w, u, v);
            && 0 <= p < w * MatrixH(cfg) && p / w == v
            && (if Forwards(cfg, v) then p % w else w - 1 - p % w) == u
  {
    var w := MatrixW(cfg);
    if Forwards(cfg, v) {
      NumberBelow(u, v, w, MatrixH(cfg));
    } else {
      NumberBelow(w - 1 - u, v, w, MatrixH(cfg));
      assert v * w + (w - 1 - u) == v * w + w - u - 1;
    }
  }

  /** In a matrix of at most 65536 pixels the number does not wrap. */
  lemma {:induction false} GetPixIsNumber(cfg: Config, x: int, y: int)
    requires Valid(cfg) && cfg.width * cfg.length <= 0x1_0000 && Inside(cfg, x, y)
    ensures var t := Turned(cfg, x, y);
            && 0 <= t.0 < MatrixW(cfg) && 0 <= t.1 < MatrixH(cfg)
            && GetPix(cfg, x, y) == Number(Forwards(cfg, t.1), MatrixW(cfg), t.0, t.1) < cfg.width * cfg.length
  {
    var t := Turned(cfg, x, y);
    TurnedInside(cfg, x, y);
    NumberOfTurned(cfg, t.0, t.1);
    AreaIs(cfg);
  }

  /** A pixel of the matrix has a number below its area, from which the coordinates can be told. */
  lemma {:induction false} PixelHasNumber(cfg: Config, x: int, y: int)
    requires Valid(cfg) && cfg.width * cfg.length <= 0x1_0000 && Inside(cfg, x, y)
    ensures GetPix(cfg, x, y) < cfg.width * cfg.length
    ensures Coordinates(cfg, GetPix(cfg, x, y)) == (x, y)
  {
    var t := Turned(cfg, x, y);
    GetPixIsNumber(cfg, x, y);
    TurnedInside(cfg, x, y);
    NumberOfTurned(cfg, t.0, t.1);
  }

  lemma {:induction false} NumberAlong(forwards: bool, w: int, run: int, rest: int)
    ensures Number(forwards, w, if forwards then rest else w - 1 - rest, run) == run * w + rest
  {
  }

  /** And every number below the area is the number of a pixel. */
  lemma {:induction false} NumberHasPixel(cfg: Config, p: nat)
    requires Valid(cfg) && cfg.width * cfg.length <= 0x1_0000 && p < cfg.width * cfg.length
    ensures var c := Coordinates(cfg, p); Inside(cfg, c.0, c.1) && GetPix(cfg, c.0, c.1) == p
  {
    var w := MatrixW(cfg);
    AreaIs(cfg);
    RunBelow(p, w, MatrixH(cfg));
    var run, along := p / w, if Forwards(cfg, p / w) then p % w else w - 1 - p % w;
    NumberAlong(Forwards(cfg, run), w, run, p % w);
    UnturnedInside(cfg, along, run);
    var c := Coordinates(cfg, p);
    GetPixIsNumber(cfg, c.0, c.1);
  }

  // ---------------------------------------------------------------- where the strip runs

  /** The corner in which the strip begins. */
  function Corner(cfg: Config): (int, int)
    requires Valid(cfg)
  {
    (if cfg.matrix <= 4 then 0 else cfg.width - 1, if 3 <= cfg.matrix <= 6 then cfg.length - 1 else 0)
  }

  function Distance(a: int, b: int): nat { if a < b then b - a else a - b }

  /** The number of a pixel by its distance from that corner: along the run, and across the runs before it. */
  lemma {:induction false} NumberByDistance(cfg: Config, x: int, y: int)
    requires Valid(cfg) && cfg.width * cfg.length <= 0x1_0000 && Inside(cfg, x, y)
    ensures var dx, dy, odd := Distance(x, Corner(cfg).0), Distance(y, Corner(cfg).1), cfg.matrix % 2 == 1;
            var along, across, run := if odd then dx else dy, if odd then dy else dx,
                                      if odd then cfg.width else cfg.length;
            && along < run
            && GetPix(cfg, x, y) ==
               across * run + (if cfg.deviceType == 2 && across % 2 == 1 then run - 1 - along else along)
  {
    GetPixIsNumber(cfg, x, y);
  }

  /** Place k of the first run: it begins in the corner that belongs to the type, and goes along x for odd types and
      along y for even ones. */
  function FirstRun(cfg: Config, k: int): (int, int)
    requires Valid(cfg)
  {
    match cfg.matrix
    case 1 => (k, 0)
    case 2 => (0, k)
    case 3 => (k, cfg.length - 1)
    case 4 => (0, cfg.length - 1 - k)
    case 5 => (cfg.width - 1 - k, cfg.length - 1)
    case 6 => (cfg.width - 1, cfg.length - 1 - k)
    case 7 => (cfg.width - 1 - k, 0)
    case _ => (cfg.width - 1, k)
  }

  /** LED 0 is in that corner, and the next ones follow. */
  lemma {:induction false} StripBegins(cfg: Config, k: int)
    requires Valid(cfg) && cfg.width * cfg.length <= 0x1_0000
    requires 0 <= k < if cfg.matrix % 2 == 1 then cfg.width else cfg.length
    ensures var c := FirstRun(cfg, k); Inside(cfg, c.0, c.1) && GetPix(cfg, c.0, c.1) == k
  {
    var c := FirstRun(cfg, k);
    NumberByDistance(cfg, c.0, c.1);
  }

  /** Place u of run v and the next place on a strip that turns around after every run. */
  lemma {:induction false} NextOnZigzag(w: int, u: int, v: nat, s: int, t: nat)
    requires 0 <= u < w && 0 <= s < w
    requires v * w + (if v % 2 == 1 then w - 1 - u else u) + 1 == t * w + (if t % 2 == 1 then w - 1 - s else s)
    ensures (v == t && (s == u + 1 || s == u - 1)) || (t == v + 1 && s == u)
  {
    var a, b := if v % 2 == 1 then w - 1 - u else u, if t % 2 == 1 then w - 1 - s else s;
    QuotientUnique(t * w + b, w, t, b);
    if a + 1 < w {
      QuotientUnique(v * w + a + 1, w, v, a + 1);
    } else {
      assert (v + 1) * w == v * w + w;
      QuotientUnique((v + 1) * w, w, v + 1, 0);
    }
  }

  /** On a zigzag matrix pixels with consecutive numbers are neighbours. */
  lemma {:induction false} ZigzagNeighbours(cfg: Config, x: int, y: int, u: int, v: int)
    requires Valid(cfg) && cfg.width * cfg.length <= 0x1_0000 && cfg.deviceType == 2
    requires Inside(cfg, x, y) && Inside(cfg, u, v) && GetPix(cfg, u, v) == GetPix(cfg, x, y) + 1
    ensures Distance(x, u) + Distance(y, v) == 1
  {
    var c := Corner(cfg);
    var dx, dy, du, dv := Distance(x, c.0), Distance(y, c.1), Distance(u, c.0), Distance(v, c.1);
    NumberByDistance(cfg, x, y);
    NumberByDistance(cfg, u, v);
    if cfg.matrix % 2 == 1 {
      NextOnZigzag(cfg.width, dx, dy, du, dv);
    } else {
      NextOnZigzag(cfg.length, dy, dx, dv, du);
    }
  }

  lemma {:induction false} ParallelNumber(cfg: Config, x: int, y: int)
    requires Valid(cfg) && cfg.width * cfg.length <= 0x1_0000 && cfg.deviceType != 2 && Inside(cfg, x, y)
    ensures var dx, dy := Distance(x, Corner(cfg).0), Distance(y, Corner(cfg).1);
            GetPix(cfg, x, y) == if cfg.matrix % 2 == 1 then dy * cfg.width + dx else dx * cfg.length + dy
  {
    NumberByDistance(cfg, x, y);
  }

  lemma {:induction false} OneRunFurther(d: int, e: int, run: int)
    ensures e == d + 1 ==> e * run == d * run + run
    ensures d == e + 1 ==> e * run == d * run - run
  {
  }

  /** On a parallel one the number changes by one constant per step in x, and by one per step in y. */
  lemma {:induction false} StepsInX(cfg: Config, x: int, y: int)
    requires Valid(cfg) && cfg.width * cfg.length <= 0x1_0000 && cfg.deviceType != 2
    requires Inside(cfg, x, y) && Inside(cfg, x + 1, y)
    ensures var step := if cfg.matrix % 2 == 1 then 1 else cfg.length;
            GetPix(cfg, x + 1, y) == GetPix(cfg, x, y) + if cfg.matrix <= 4 then step else -step
  {
    ParallelNumber(cfg, x, y);
    ParallelNumber(cfg, x + 1, y);
    OneRunFurther(Distance(x, Corner(cfg).0), Distance(x + 1, Corner(cfg).0), cfg.length);
  }

  lemma {:induction false} StepsInY(cfg: Config, x: int, y: int)
    requires Valid(cfg) && cfg.width * cfg.length <= 0x1_0000 && cfg.deviceType != 2
    requires Inside(cfg, x, y) && Inside(cfg, x, y + 1)
    ensures var step := if cfg.matrix % 2 == 1 then cfg.width else 1;
            GetPix(cfg, x, y + 1) == GetPix(cfg, x, y) + if 3 <= cfg.matrix <= 6 then -step else step
  {
    ParallelNumber(cfg, x, y);
    ParallelNumber(cfg, x, y + 1);
    OneRunFurther(Distance(y, Corner(cfg).1), Distance(y + 1, Corner(cfg).1), cfg.width);
  }

  // ---------------------------------------------------------------- the library's own numbering

  /** XY, which takes its width from the configuration but its wiring from the constant MATRIX_TYPE. */
  function XY(cfg: Config, parallel: bool, x: Byte, y: Byte): nat {
    Number(y % 2 == 0 || parallel, cfg.width, x, y) % 0x1_0000
  }

  /** The configuration whose matrix XY numbers. */
  function Upright(cfg: Config, parallel: bool): Config {
    cfg.(matrix := 1, deviceType := if parallel then 3 else 2)
  }

  /** As the numbering of an upright matrix it loses no pixel either. */
  lemma {:induction false} XYHasCoordinates(cfg: Config, parallel: bool, x: Byte, y: Byte)
    requires Valid(cfg) && cfg.width * cfg.length <= 0x1_0000 && Inside(cfg, x, y)
    ensures XY(cfg, parallel, x, y) == GetPix(Upright(cfg, parallel), x, y) < cfg.width * cfg.length
    ensures Coordinates(Upright(cfg, parallel), XY(cfg, parallel, x, y)) == (x, y)
  {
    PixelHasNumber(Upright(cfg, parallel), x, y);
  }

  ghost predicate XYAgrees(cfg: Config, parallel: bool)
    requires Valid(cfg)
  {
    forall x: Byte, y: Byte :: Inside(cfg, x, y) ==> XY(cfg, parallel, x, y) == GetPix(cfg, x, y)
  }

  /** The matrix is upright and wired as XY takes it to be, or too narrow for its turn or wiring to matter. */
  predicate XYServes(cfg: Config, parallel: bool) {
    match cfg.matrix
    case 1 => parallel == (cfg.deviceType != 2) || cfg.width == 1 || cfg.length == 1
    case 2 => cfg.width == 1 || cfg.length == 1
    case 3 | 4 => cfg.length == 1
    case 5 | 6 => cfg.width == 1 && cfg.length == 1
    case _ => cfg.width == 1
  }

  /** XY ignores how the matrix is turned, so that this is when it agrees with GetPix on the whole matrix. */
  lemma {:induction false} XYAgreesIff(cfg: Config, parallel: bool)
    requires Valid(cfg) && cfg.width * cfg.length <= 0x1_0000
    ensures XYAgrees(cfg, parallel) <==> XYServes(cfg, parallel)
  {
    if XYServes(cfg, parallel) {
      forall x: Byte, y: Byte | Inside(cfg, x, y) ensures XY(cfg, parallel, x, y) == GetPix(cfg, x, y) {
        XYServed(cfg, parallel, x, y);
      }
    } else {
      XYSpoilt(cfg, parallel);
    }
  }

  /** Runs of one pixel are numbered by the runs, and the first run by its pixels. */
  lemma {:induction false} NarrowNumbers(forwards: bool, x: int)
    ensures Number(forwards, 1, 0, x) == x
    ensures forall w: int :: Number(true, w, x, 0) == x
  {
  }

  lemma {:induction false} XYServed(cfg: Config, parallel: bool, x: Byte, y: Byte)
    requires Valid(cfg) && cfg.width * cfg.length <= 0x1_0000 && Inside(cfg, x, y) && XYServes(cfg, parallel)
    ensures XY(cfg, parallel, x, y) == GetPix(cfg, x, y)
  {
    var t := Turned(cfg, x, y);
    if cfg.width == 1 || cfg.length == 1 {
      NarrowNumbers(y % 2 == 0 || parallel, x + y);
      NarrowNumbers(Forwards(cfg, t.1), t.0 + t.1);
    }
  }

  lemma {:induction false} SecondRun(forwards: bool, w: int)
    ensures Number(forwards, w, 0, 1) == if forwards then w else 2 * w - 1
  {
  }

  lemma {:induction false} OnlyFirstIsZero(forwards: bool, w: int, u: int, v: int)
    requires 0 <= u < w && 0 <= v && (v == 0 ==> forwards)
    ensures Number(forwards, w, u, v) == 0 <==> u == 0 && v == 0
  {
    assert v >= 1 ==> v * w >= w;
  }

  /** The two disagree at one of three corners. */
  lemma {:induction false} XYSpoilt(cfg: Config, parallel: bool)
    requires Valid(cfg) && cfg.width * cfg.length <= 0x1_0000 && !XYServes(cfg, parallel)
    ensures !XYAgrees(cfg, parallel)
  {
    var x, y := if cfg.matrix == 2 then 1 else 0, if cfg.matrix == 1 then 1 else 0;
    var t, w := Turned(cfg, x, y), MatrixW(cfg);
    GetPixIsNumber(cfg, x, y);
    GetPixIsNumber(Upright(cfg, parallel), x, y);
    SecondRun(Forwards(cfg, t.1), w);
    SecondRun(parallel, w);
    OnlyFirstIsZero(Forwards(cfg, t.1), w, t.0, t.1);
    assert XY(cfg, parallel, x, y) != GetPix(cfg, x, y);
  }

  // ---------------------------------------------------------------- the picture on the LEDs

  /** The configured matrix lies within the array of at most 65535 LEDs. */
  ghost predicate Fits(cfg: Config, leds: seq<Color>) {
    Valid(cfg) && cfg.width * cfg.length <= |leds| < 0x1_0000
  }

  ghost function Pixel(cfg: Config, leds: seq<Color>, x: int, y: int): Color
    requires Fits(cfg, leds) && Inside(cfg, x, y)
  {
    PixelHasNumber(cfg, x, y);
    leds[GetPix(cfg, x, y)]
  }

  ghost function WithPixel(cfg: Config, leds: seq<Color>, x: int, y: int, color: Color): (after: seq<Color>)
    requires Fits(cfg, leds)
    ensures |after| == |leds|
  {
    if Inside(cfg, x, y) then
      PixelHasNumber(cfg, x, y);
      leds[GetPix(cfg, x, y) := color]
    else leds
  }

  /** The first j pixels of row i filled. */
  ghost function RowFilled(cfg: Config, leds: seq<Color>, i: int, j: nat, color: Color): (after: seq<Color>)
    requires Fits(cfg, leds)
    ensures |after| == |leds|
  {
    if j == 0 then leds else WithPixel(cfg, RowFilled(cfg, leds, i, j - 1, color), j - 1, i, color)
  }

  ghost function RowsFilled(cfg: Config, leds: seq<Color>, from: int, end: int, color: Color): (after: seq<Color>)
    requires Fits(cfg, leds)
    ensures |after| == |leds|
    decreases end - from
  {
    if end <= from then leds
    else RowFilled(cfg, RowsFilled(cfg, leds, from, end - 1, color), end - 1, cfg.width, color)
  }

  /** Setting a pixel changes that pixel of the picture and no other. */
  lemma {:induction false} SetPixChangesOne(cfg: Config, leds: seq<Color>, x: int, y: int, color: Color, u: int, v: int)
    requires Fits(cfg, leds) && Inside(cfg, u, v)
    ensures Pixel(cfg, WithPixel(cfg, leds, x, y, color), u, v) ==
            if u == x && v == y then color else Pixel(cfg, leds, u, v)
  {
    if Inside(cfg, x, y) {
      PixelHasNumber(cfg, x, y);
      PixelHasNumber(cfg, u, v);
    }
  }

  lemma {:induction false} RowFilledPixel(cfg: Config, leds: seq<Color>, i: int, j: nat, color: Color, u: int, v: int)
    requires Fits(cfg, leds) && Inside(cfg, u, v)
    ensures Pixel(cfg, RowFilled(cfg, leds, i, j, color), u, v) ==
            if v == i && u < j then color else Pixel(cfg, leds, u, v)
  {
    if j > 0 {
      RowFilledPixel(cfg, leds, i, j - 1, color, u, v);
      SetPixChangesOne(cfg, RowFilled(cfg, leds, i, j - 1, color), j - 1, i, color, u, v);
    }
  }

  /** Filling rows of a matrix changes exactly those rows of the picture, however it is turned and wired. */
  lemma {:induction false} FillStripChangesRows(cfg: Config, leds: seq<Color>, from: int, end: int, color: Color,
                                                u: int, v: int)
    requires Fits(cfg, leds) && Inside(cfg, u, v)
    ensures Pixel(cfg, RowsFilled(cfg, leds, from, end, color), u, v) ==
            if from <= v < end then color else Pixel(cfg, leds, u, v)
    decreases end - from
  {
    if from < end {
      FillStripChangesRows(cfg, leds, from, end - 1, color, u, v);
      RowFilledPixel(cfg, RowsFilled(cfg, leds, from, end - 1, color), end - 1, cfg.width, color, u, v);
    }
  }

  lemma {:induction false} BeyondRow(cfg: Config, leds: seq<Color>, i: int, j: nat, color: Color, p: nat)
    requires Fits(cfg, leds) && cfg.width * cfg.length <= p < |leds|
    ensures RowFilled(cfg, leds, i, j, color)[p] == leds[p]
  {
    if j > 0 {
      BeyondRow(cfg, leds, i, j - 1, color, p);
      if Inside(cfg, j - 1, i) { PixelHasNumber(cfg, j - 1, i); }
    }
  }

  /** LEDs beyond the matrix are left alone. */
  lemma {:induction false} BeyondRows(cfg: Config, leds: seq<Color>, from: int, end: int, color: Color, p: nat)
    requires Fits(cfg, leds) && cfg.width * cfg.length <= p < |leds|
    ensures RowsFilled(cfg, leds, from, end, color)[p] == leds[p]
    decreases end - from
  {
    if from < end {
      BeyondRows(cfg, leds, from, end - 1, color, p);
      BeyondRow(cfg, RowsFilled(cfg, leds, from, end - 1, color), end - 1, cfg.width, color, p);
    }
  }

  // ---------------------------------------------------------------- the driver

  class LedDriver {
    const leds: array<Color>
    var cfg: Config

    constructor (numLeds: nat, config: Config)
      ensures fresh(leds) && leds.Length == numLeds && cfg == config
    {
      leds := new Color[numLeds](_ => Color(0, 0, 0));
      cfg := config;
    }

    method SetPix(x: int, y: int, color: Color)
      requires Fits(cfg, leds[..])
      modifies leds
      ensures leds[..] == WithPixel(cfg, old(leds[..]), x, y, color)
    {
      if y >= 0 && y < cfg.length && x >= 0 && x < cfg.width {
        PixelHasNumber(cfg, x, y);
        leds[GetPix(cfg, x, y)] := color;
      }
    }

    /** The packed colour of a pixel; coordinates that lead beyond the array give black. */
    method GetPixColor(x: int, y: int) returns (rgb: nat)
      requires Valid(cfg)
      ensures Fits(cfg, leds[..]) && Inside(cfg, x, y) ==> rgb == Packed(Pixel(cfg, leds[..], x, y))
      ensures rgb == if GetPix(cfg, x, y) < leds.Length then Packed(leds[GetPix(cfg, x, y)]) else 0
    {
      var thisPix := GetPix(cfg, x, y);
      if Fits(cfg, leds[..]) && Inside(cfg, x, y) { PixelHasNumber(cfg, x, y); }
      if thisPix < 0 || thisPix >= leds.Length { return 0; }
      rgb := leds[thisPix].r * 65536 + leds[thisPix].g * 256 + leds[thisPix].b;
    }

    method FillRun(i: int, color: Color)
      requires Fits(cfg, leds[..]) && 0 <= i < cfg.length
      modifies leds
      ensures leds[..] == RowFilled(cfg, old(leds[..]), i, cfg.width, color)
    {
      for j := 0 to cfg.width
        invariant leds[..] == RowFilled(cfg, old(leds[..]), i, j, color)
      {
        PixelHasNumber(cfg, j, i);
        leds[GetPix(cfg, j, i)] := color;
      }
    }

    /** On a matrix the rows from .. end - 1 are filled; on a strip the LEDs with these numbers. */
    method FillStrip(from: int, end: int, color: Color)
      requires cfg.deviceType > 1 ==> Fits(cfg, leds[..])
      requires 0 <= from && end <= if cfg.deviceType > 1 then cfg.length else leds.Length
      modifies leds
      ensures cfg.deviceType > 1 ==> leds[..] == RowsFilled(cfg, old(leds[..]), from, end, color)
      ensures cfg.deviceType <= 1 ==>
                forall p :: 0 <= p < leds.Length ==> leds[p] == if from <= p < end then color else old(leds[p])
    {
      var i := from;
      if cfg.deviceType > 1 {
        while i < end
          invariant from <= i && (i <= end || i == from)
          invariant leds[..] == RowsFilled(cfg, old(leds[..]), from, i, color)
        {
          FillRun(i, color);
          i := i + 1;
        }
      } else {
        while i < end
          invariant from <= i && (i <= end || i == from)
          invariant forall p :: 0 <= p < leds.Length ==> leds[p] == if from <= p < i then color else old(leds[p])
        {
          leds[i] := color;
          i := i + 1;
        }
      }
    }
  }

  function Packed(c: Color): nat {
    c.r * 65536 + c.g * 256 + c.b
  }

  lemma {:induction false} PackedChannels(c: Color)
    ensures Packed(c) < 0x100_0000
    ensures Packed(c) / 0x1_0000 == c.r && Packed(c) / 0x100 % 0x100 == c.g && Packed(c) % 0x100 == c.b
  {
    QuotientUnique(Packed(c), 0x100, c.r * 256 + c.g, c.b);
    QuotientUnique(c.r * 256 + c.g, 0x100, c.r, c.g);
    QuotientUnique(Packed(c), 0x1_0000, c.r, c.g * 256 + c.b);
  }

  /** The packed colour is 24 bits from which the colour can be told: red, green and blue from the top. */
  lemma {:induction false} PackedIsInjective(c: Color, d: Color)
    ensures Packed(c) < 0x100_0000
    ensures Packed(c) / 0x1_0000 == c.r && Packed(c) / 0x100 % 0x100 == c.g && Packed(c) % 0x100 == c.b
    ensures Packed(c) == Packed(d) <==> c == d
  {
    PackedChannels(c);
    PackedChannels(d);
  }
}
