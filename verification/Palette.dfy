/** Loading palettes from lists of gradient stops (libraries/FastLED/colorutils.h:822-863, 1469-1487). */
module Palette {
  import opened Gradient
  import opened Octets

  /** An entry of a gradient palette; the entry with index 255 ends the list. */
  datatype Stop = Stop(index: Byte, color: Color)

  /** What the loaders rely on: the list is ended, and not by its first entry. */
  predicate Ended(stops: seq<Stop>) {
    && 2 <= |stops| < 0x1_0000
    && forall p :: 0 <= p < |stops| ==> (stops[p].index == 255 <==> p == |stops| - 1)
  }

  // ---------------------------------------------------------------- runs of gradient fills

  /** One call of fill_gradient_RGB. */
  datatype Fill = Fill(start: Byte, from: Color, end: Byte, to: Color)

  function Low(f: Fill): Byte { if f.end < f.start then f.end else f.start }

  function High(f: Fill): Byte { if f.end < f.start then f.start else f.end }

  /** The colour that a fill gives to an entry that it covers. */
  function Tint(f: Fill, i: nat): Color
    requires Low(f) <= i <= High(f)
  {
    if f.end < f.start then ColorAt(f.to, f.from, High(f) - Low(f), i - Low(f))
    else ColorAt(f.from, f.to, High(f) - Low(f), i - Low(f))
  }

  function Painted(entries: seq<Color>, f: Fill): (after: seq<Color>)
    ensures |after| == |entries|
  {
    seq(|entries|, i requires 0 <= i < |entries| =>
      if Low(f) <= i <= High(f) then Tint(f, i) else entries[i])
  }

  function PaintedAll(entries: seq<Color>, fills: seq<Fill>): (after: seq<Color>)
    ensures |after| == |entries|
    decreases fills
  {
    if fills == [] then entries else PaintedAll(Painted(entries, fills[0]), fills[1..])
  }

  method Paint(entries: array<Color>, f: Fill)
    requires High(f) < entries.Length
    modifies entries
    ensures entries[..] == Painted(old(entries[..]), f)
  {
    FillGradientRGB(entries, f.start, f.from, f.end, f.to);
  }

  ghost predicate Covered(fills: seq<Fill>, i: int) {
    exists k :: 0 <= k < |fills| && Low(fills[k]) <= i <= High(fills[k])
  }

  /** Every entry up to limit is covered by some fill. */
  ghost predicate Covers(fills: seq<Fill>, limit: int) {
    forall i :: 0 <= i <= limit ==> Covered(fills, i)
  }

  lemma {:induction false} CoversMore(fills: seq<Fill>, limit: int, f: Fill, reach: int)
    requires Covers(fills, limit) && Low(f) <= limit + 1
    requires reach <= limit || reach <= High(f)
    ensures Covers(fills + [f], reach)
  {
    var more := fills + [f];
    forall i | 0 <= i <= reach ensures Covered(more, i) {
      if i <= limit {
        assert Covered(fills, i);
        var k :| 0 <= k < |fills| && Low(fills[k]) <= i <= High(fills[k]);
        assert more[k] == fills[k];
      } else {
        assert more[|fills|] == f;
      }
    }
  }

  lemma {:induction false} PaintedAllSnoc(entries: seq<Color>, fills: seq<Fill>, f: Fill)
    ensures PaintedAll(entries, fills + [f]) == Painted(PaintedAll(entries, fills), f)
    decreases fills
  {
    if fills == [] {
      assert [f][1..] == [];
    } else {
      assert (fills + [f])[0] == fills[0] && (fills + [f])[1..] == fills[1..] + [f];
      PaintedAllSnoc(Painted(entries, fills[0]), fills[1..], f);
    }
  }

  /** An entry keeps the tint of the last fill that covers it. */
  lemma {:induction false} LastTintStays(entries: seq<Color>, fills: seq<Fill>, k: nat, i: nat)
    requires k < |fills| && i < |entries| && Low(fills[k]) <= i <= High(fills[k])
    requires forall m :: k < m < |fills| ==> !(Low(fills[m]) <= i <= High(fills[m]))
    ensures PaintedAll(entries, fills)[i] == Tint(fills[k], i)
    decreases fills
  {
    var last := fills[|fills| - 1];
    var rest := fills[..|fills| - 1];
    assert fills == rest + [last];
    PaintedAllSnoc(entries, rest, last);
    if k < |fills| - 1 {
      LastTintStays(entries, rest, k, i);
    }
  }

  // ---------------------------------------------------------------- the 256-entry palette

  function StartIndex(stops: seq<Stop>, p: nat): Byte
    requires 0 < p < |stops|
  {
    if p == 1 then 0 else stops[p - 1].index
  }

  function Fill256(stops: seq<Stop>, p: nat): Fill
    requires 0 < p < |stops|
  {
    Fill(StartIndex(stops, p), stops[p - 1].color, stops[p].index, stops[p].color)
  }

  /** The fills between the first p stops. */
  function Fills256(stops: seq<Stop>, p: nat): (fills: seq<Fill>)
    requires 0 < p <= |stops|
    ensures |fills| == p - 1
  {
    if p == 1 then [] else Fills256(stops, p - 1) + [Fill256(stops, p - 1)]
  }

  lemma {:induction false} Fills256At(stops: seq<Stop>, p: nat, k: nat)
    requires 0 < p <= |stops| && k < p - 1
    ensures Fills256(stops, p)[k] == Fill256(stops, k + 1)
    decreases p
  {
    if k < p - 2 {
      Fills256At(stops, p - 1, k);
    }
  }

  method LoadPalette256(entries: array<Color>, stops: seq<Stop>)
    requires entries.Length == 256 && Ended(stops)
    modifies entries
    ensures entries[..] == PaintedAll(old(entries[..]), Fills256(stops, |stops|))
  {
    var rgbstart := stops[0].color;
    var progent: nat := 0;
    var indexstart: Byte := 0;
    while indexstart < 255
      invariant progent < |stops| && rgbstart == stops[progent].color
      invariant indexstart == if progent == 0 then 0 else stops[progent].index
      invariant entries[..] == PaintedAll(old(entries[..]), Fills256(stops, progent + 1))
      decreases |stops| - progent
    {
      progent := progent + 1;
      var indexend := stops[progent].index;
      var rgbend := stops[progent].color;
      var f := Fill(indexstart, rgbstart, indexend, rgbend);
      assert f == Fill256(stops, progent);
      PaintedAllSnoc(old(entries[..]), Fills256(stops, progent), f);
      Paint(entries, f);
      indexstart := indexend;
      rgbstart := rgbend;
    }
  }

  /** Whatever the order of the indices, every entry is written. */
  lemma {:induction false} Fills256Cover(stops: seq<Stop>, p: nat)
    requires Ended(stops) && 0 < p <= |stops|
    ensures Covers(Fills256(stops, p), if p == 1 then -1 else stops[p - 1].index)
    decreases p
  {
    if p > 1 {
      Fills256Cover(stops, p - 1);
      CoversMore(Fills256(stops, p - 1), if p == 2 then -1 else stops[p - 2].index, Fill256(stops, p - 1),
                 stops[p - 1].index);
    }
  }

  predicate Increasing(stops: seq<Stop>) {
    forall p, q :: 0 <= p < q < |stops| ==> stops[p].index < stops[q].index
  }

  /** With indices that increase from 0, every stop but the last has exactly its colour. */
  lemma {:induction false} StopsAreExact(entries: seq<Color>, stops: seq<Stop>, p: nat)
    requires |entries| == 256 && Ended(stops) && Increasing(stops) && stops[0].index == 0 && p < |stops| - 1
    ensures PaintedAll(entries, Fills256(stops, |stops|))[stops[p].index] == stops[p].color
  {
    var fills := Fills256(stops, |stops|);
    OnlyLastCovers(stops, p);
    LastTintStays(entries, fills, p, stops[p].index);
    FirstIsExact(stops[p].color, stops[p + 1].color, stops[p + 1].index - stops[p].index);
  }

  lemma {:induction false} OnlyLastCovers(stops: seq<Stop>, p: nat)
    requires Ended(stops) && Increasing(stops) && stops[0].index == 0 && p < |stops| - 1
    ensures var fills, i := Fills256(stops, |stops|), stops[p].index;
            && fills[p] == Fill(i, stops[p].color, stops[p + 1].index, stops[p + 1].color)
            && forall m :: p < m < |fills| ==> !(Low(fills[m]) <= i <= High(fills[m]))
  {
    var fills := Fills256(stops, |stops|);
    Fills256At(stops, |stops|, p);
    forall m | p < m < |fills| ensures Low(fills[m]) > stops[p].index {
      Fills256At(stops, |stops|, m);
    }
  }

  ghost predicate Near(c: Color, d: Color, t: nat) {
    && c.r - d.r <= t && d.r - c.r <= t && c.g - d.g <= t && d.g - c.g <= t && c.b - d.b <= t && d.b - c.b <= t
  }

  /** And the last stop has its colour up to the rounding of the gradient that leads to it. */
  lemma {:induction false} LastStopIsNear(entries: seq<Color>, stops: seq<Stop>)
    requires |entries| == 256 && Ended(stops) && Increasing(stops)
    ensures var last := |stops| - 1;
            Near(PaintedAll(entries, Fills256(stops, |stops|))[255], stops[last].color,
                 Tolerance(255 - StartIndex(stops, last)))
  {
    var last, fills := |stops| - 1, Fills256(stops, |stops|);
    var n, c, d := 255 - StartIndex(stops, last), stops[last - 1].color, stops[last].color;
    Fills256At(stops, |stops|, last - 1);
    LastTintStays(entries, fills, last - 1, 255);
    ChannelIsFaithful(c.r, d.r, n, n, n);
    ChannelIsFaithful(c.g, d.g, n, n, n);
    ChannelIsFaithful(c.b, d.b, n, n, n);
  }

  // ---------------------------------------------------------------- the 16-entry palette

  /** With fewer than 16 stops the loader tries to give every stop an entry of its own: a gradient whose
      first entry is taken starts at the next one instead.  `last` is lastSlotUsed, -1 at first. */
  function Slots(last: int, indexstart: Byte, indexend: Byte, few: bool): (slots: (Byte, Byte))
    requires -1 <= last <= 15
    ensures slots.0 <= 15 && slots.1 <= 15
  {
    var istart8, iend8 := indexstart / 16, indexend / 16;
    if few && istart8 <= last && last < 15
    then (last + 1, if iend8 < last + 1 then last + 1 else iend8)
    else (istart8, iend8)
  }

  function LastSlot(stops: seq<Stop>, p: nat, few: bool): (last: int)
    requires 0 < p <= |stops|
    ensures -1 <= last <= 15
    decreases p, 0
  {
    if p == 1 || !few then -1 else Fill16(stops, p - 1, few).end
  }

  /** The fill between stops p - 1 and p. */
  function Fill16(stops: seq<Stop>, p: nat, few: bool): (f: Fill)
    requires 0 < p < |stops|
    ensures f.start <= 15 && f.end <= 15
    decreases p, 1
  {
    var slots := Slots(LastSlot(stops, p, few), StartIndex(stops, p), stops[p].index, few);
    Fill(slots.0, stops[p - 1].color, slots.1, stops[p].color)
  }

  function Fills16(stops: seq<Stop>, p: nat, few: bool): (fills: seq<Fill>)
    requires 0 < p <= |stops|
    ensures |fills| == p - 1
    decreases p
  {
    if p == 1 then [] else Fills16(stops, p - 1, few) + [Fill16(stops, p - 1, few)]
  }

  lemma {:induction false} Fills16At(stops: seq<Stop>, p: nat, k: nat, few: bool)
    requires 0 < p <= |stops| && k < p - 1
    ensures Fills16(stops, p, few)[k] == Fill16(stops, k + 1, few)
    decreases p
  {
    if k < p - 2 {
      Fills16At(stops, p - 1, k, few);
    }
  }

  /** The counting loop. */
  method CountStops(stops: seq<Stop>) returns (count: nat)
    requires Ended(stops)
    ensures count == |stops|
  {
    count := 0;
    var u := stops[count];
    count := count + 1;
    while u.index != 255
      invariant 0 < count <= |stops| && u == stops[count - 1]
      decreases |stops| - count
    {
      u := stops[count];
      count := (count + 1) % 0x1_0000;
    }
  }

  method LoadPalette16(entries: array<Color>, stops: seq<Stop>)
    requires entries.Length == 16 && Ended(stops)
    modifies entries
    ensures entries[..] == PaintedAll(old(entries[..]), Fills16(stops, |stops|, |stops| < 16))
  {
    var count := CountStops(stops);
    var lastSlotUsed := -1;
    var rgbstart := stops[0].color;
    var progent: nat := 0;
    var indexstart: Byte := 0;
    while indexstart < 255
      invariant progent < |stops| && rgbstart == stops[progent].color
      invariant indexstart == if progent == 0 then 0 else stops[progent].index
      invariant lastSlotUsed == LastSlot(stops, progent + 1, |stops| < 16)
      invariant entries[..] == PaintedAll(old(entries[..]), Fills16(stops, progent + 1, |stops| < 16))
      decreases |stops| - progent
    {
      progent := progent + 1;
      var indexend := stops[progent].index;
      var rgbend := stops[progent].color;
      var istart8 := indexstart / 16;
      var iend8 := indexend / 16;
      if count < 16 {
        if istart8 <= lastSlotUsed && lastSlotUsed < 15 {
          istart8 := lastSlotUsed + 1;
          if iend8 < istart8 {
            iend8 := istart8;
          }
        }
        lastSlotUsed := iend8;
      }
      var f := Fill(istart8, rgbstart, iend8, rgbend);
      assert f == Fill16(stops, progent, |stops| < 16);
      PaintedAllSnoc(old(entries[..]), Fills16(stops, progent, |stops| < 16), f);
      Paint(entries, f);
      indexstart := indexend;
      rgbstart := rgbend;
    }
  }

  /** How far the first p stops reach. */
  function Reach16(stops: seq<Stop>, p: nat, few: bool): (reach: int)
    requires 0 < p <= |stops|
    ensures -1 <= reach <= 15
    decreases p
  {
    if p == 1 then -1
    else
      var r, f := Reach16(stops, p - 1, few), Fill16(stops, p - 1, few);
      if r < f.end then f.end else r
  }

  /** Whatever the number and the order of the stops, no entry is skipped. */
  lemma {:induction false} Fills16Cover(stops: seq<Stop>, p: nat, few: bool)
    requires Ended(stops) && 0 < p <= |stops|
    ensures Covers(Fills16(stops, p, few), Reach16(stops, p, few))
    ensures LastSlot(stops, p, few) <= Reach16(stops, p, few)
    ensures p > 1 ==> stops[p - 1].index / 16 <= Reach16(stops, p, few)
    ensures p > 1 && few ==> stops[p - 1].index / 16 <= LastSlot(stops, p, few)
    decreases p
  {
    if p > 1 {
      Fills16Cover(stops, p - 1, few);
      CoversMore(Fills16(stops, p - 1, few), Reach16(stops, p - 1, few), Fill16(stops, p - 1, few),
                 Reach16(stops, p, few));
    }
  }

  /** Both loaders write every entry of their palette. */
  lemma {:induction false} EveryEntryWritten(stops: seq<Stop>)
    requires Ended(stops)
    ensures Covers(Fills16(stops, |stops|, |stops| < 16), 15)
    ensures Covers(Fills256(stops, |stops|), 255)
  {
    Fills16Cover(stops, |stops|, |stops| < 16);
    Fills256Cover(stops, |stops|);
  }
}
