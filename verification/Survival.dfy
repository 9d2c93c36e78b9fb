/** Which colours of a gradient palette survive its loading into 16 entries (libraries/FastLED/colorutils.h:822-863). */
module Survival {
  import opened Gradient
  import opened Octets
  import opened Palette

  /** What the loader makes of the entries. */
  function Loaded(entries: seq<Color>, stops: seq<Stop>): (after: seq<Color>)
    requires stops != []
    ensures |after| == |entries|
  {
    PaintedAll(entries, Fills16(stops, |stops|, |stops| < 16))
  }

  /** The gradient that starts with the colour of stop p. */
  function Stripe(stops: seq<Stop>, p: nat): (f: Fill)
    requires p + 1 < |stops|
    ensures f.start <= 15 && f.end <= 15
  {
    Fill16(stops, p + 1, |stops| < 16)
  }

  predicate Hit(stops: seq<Stop>, m: nat, i: int)
    requires m + 1 < |stops|
  {
    Low(Stripe(stops, m)) <= i <= High(Stripe(stops, m))
  }

  predicate SameIndices(stops: seq<Stop>, other: seq<Stop>) {
    |stops| == |other| && forall p :: 0 <= p < |stops| ==> stops[p].index == other[p].index
  }

  /** The colour of stop p is in the palette, whatever the colours of the stops are. */
  ghost predicate AlwaysShown(stops: seq<Stop>, p: nat)
    requires p < |stops|
  {
    forall entries: seq<Color>, other: seq<Stop> ::
      |entries| == 16 && SameIndices(stops, other) ==> other[p].color in Loaded(entries, other)
  }

  /** It is in the entry where the gradient of stop p starts, whatever the colours of the stops are. */
  ghost predicate AlwaysKept(stops: seq<Stop>, p: nat)
    requires p + 1 < |stops|
  {
    forall entries: seq<Color>, other: seq<Stop> ::
      |entries| == 16 && SameIndices(stops, other) ==>
        Loaded(entries, other)[Stripe(stops, p).start] == other[p].color
  }

  // ---------------------------------------------------------------- what shows a colour

  /** No gradient from stop m0 on covers the entry. */
  ghost predicate Clear(stops: seq<Stop>, m0: nat, i: int) {
    forall m: nat :: m0 <= m < |stops| - 1 ==> !Hit(stops, m, i)
  }

  ghost predicate Uncovered(stops: seq<Stop>, p: nat)
    requires p + 1 < |stops|
  {
    Clear(stops, p + 1, Stripe(stops, p).start)
  }

  /** A gradient over d + 1 of the 16 entries reaches its far end without rounding, whatever its colours are. */
  predicate Exact(d: int) {
    d == 1 || d == 2 || d == 4 || d == 8
  }

  /** That is, when d divides the 128 of the fixed-point step. */
  lemma {:induction false} ExactDivides(d: int)
    requires 0 < d <= 15
    ensures Exact(d) <==> 128 % d == 0
  {
  }

  /** A gradient that runs downwards is filled from its other end. */
  predicate StartsExactly(f: Fill) {
    f.start <= f.end || Exact(f.start - f.end)
  }

  predicate EndsExactly(f: Fill) {
    f.end < f.start || Exact(f.end - f.start)
  }

  /** The gradient that starts with the colour of stop p shows it. */
  ghost predicate Departs(stops: seq<Stop>, p: nat) {
    p + 1 < |stops| && Uncovered(stops, p) && StartsExactly(Stripe(stops, p))
  }

  /** The gradient that ends with the colour of stop p shows it. */
  ghost predicate Arrives(stops: seq<Stop>, p: nat)
    requires p < |stops|
  {
    p > 0 && Clear(stops, p, Stripe(stops, p - 1).end) && EndsExactly(Stripe(stops, p - 1))
  }

  lemma {:induction false} StepsMeet(a: Byte, b: Byte, n: nat)
    requires Exact(n)
    ensures n * ExactStep(a, b, n) == 256 * (b - a)
  {
  }

  lemma {:induction false} EndIsExact(a: Byte, b: Byte, n: Word16)
    requires Exact(n)
    ensures Channel(a, b, n, n) == b
  {
    AccumulatorIsExact(a, b, n, n);
    StepsMeet(a, b, n);
  }

  lemma {:induction false} TintAtStart(f: Fill)
    requires f.start <= 15 && f.end <= 15 && StartsExactly(f)
    ensures Tint(f, f.start) == f.from
  {
    if f.start <= f.end {
      FirstIsExact(f.from, f.to, f.end - f.start);
    } else {
      var n := f.start - f.end;
      EndIsExact(f.to.r, f.from.r, n);
      EndIsExact(f.to.g, f.from.g, n);
      EndIsExact(f.to.b, f.from.b, n);
    }
  }

  lemma {:induction false} TintAtEnd(f: Fill)
    requires f.start <= 15 && f.end <= 15 && EndsExactly(f)
    ensures Tint(f, f.end) == f.to
  {
    var n: Word16 := High(f) - Low(f);
    if f.end < f.start {
      FirstIsExact(f.to, f.from, n);
    } else {
      EndIsExact(f.from.r, f.to.r, n);
      EndIsExact(f.from.g, f.to.g, n);
      EndIsExact(f.from.b, f.to.b, n);
    }
  }

  lemma {:induction false} SameSlots(stops: seq<Stop>, other: seq<Stop>, p: nat, few: bool)
    requires SameIndices(stops, other) && 0 < p < |stops|
    ensures Fill16(stops, p, few).start == Fill16(other, p, few).start
    ensures Fill16(stops, p, few).end == Fill16(other, p, few).end
  {
    if p > 1 {
      SameSlots(stops, other, p - 1, few);
    }
  }

  lemma {:induction false} FillIsStripe(stops: seq<Stop>, other: seq<Stop>, m: nat)
    requires SameIndices(stops, other) && m + 1 < |stops|
    ensures Fills16(other, |other|, |other| < 16)[m] == Stripe(other, m)
    ensures Stripe(other, m).start == Stripe(stops, m).start && Stripe(other, m).end == Stripe(stops, m).end
  {
    Fills16At(other, |other|, m, |other| < 16);
    SameSlots(stops, other, m + 1, |stops| < 16);
  }

  /** An entry has the tint of the last gradient over it, for every colouring. */
  lemma {:induction false} LastHitTints(entries: seq<Color>, stops: seq<Stop>, other: seq<Stop>, p: nat, i: nat)
    requires |entries| == 16 && SameIndices(stops, other) && p + 1 < |stops| && Hit(stops, p, i)
    requires Clear(stops, p + 1, i)
    ensures Hit(other, p, i)
    ensures Loaded(entries, other)[i] == Tint(Stripe(other, p), i)
  {
    var fills := Fills16(other, |other|, |other| < 16);
    FillIsStripe(stops, other, p);
    forall m | p < m < |fills| ensures !(Low(fills[m]) <= i <= High(fills[m])) {
      FillIsStripe(stops, other, m);
      assert !Hit(stops, m, i);
    }
    LastTintStays(entries, fills, p, i);
  }

  lemma {:induction false} DepartsShows(entries: seq<Color>, stops: seq<Stop>, other: seq<Stop>, p: nat)
    requires |entries| == 16 && SameIndices(stops, other) && Departs(stops, p)
    ensures Loaded(entries, other)[Stripe(stops, p).start] == other[p].color
  {
    SameSlots(stops, other, p + 1, |stops| < 16);
    LastHitTints(entries, stops, other, p, Stripe(stops, p).start);
    TintAtStart(Stripe(other, p));
  }

  lemma {:induction false} ArrivesShows(entries: seq<Color>, stops: seq<Stop>, other: seq<Stop>, p: nat)
    requires |entries| == 16 && SameIndices(stops, other) && p < |stops| && Arrives(stops, p)
    ensures Loaded(entries, other)[Stripe(stops, p - 1).end] == other[p].color
  {
    SameSlots(stops, other, p, |stops| < 16);
    LastHitTints(entries, stops, other, p - 1, Stripe(stops, p - 1).end);
    TintAtEnd(Stripe(other, p - 1));
  }

  // ---------------------------------------------------------------- and nothing else does

  const GREY := Color(7, 7, 7)
  const RED := Color(8, 7, 7)

  /** The same stops in one colour, but for stop p, whose red is higher by one. */
  function Recolored(stops: seq<Stop>, p: nat): (other: seq<Stop>)
    ensures SameIndices(stops, other)
  {
    seq(|stops|, i requires 0 <= i < |stops| => Stop(stops[i].index, if i == p then RED else GREY))
  }

  lemma {:induction false} GreyStaysGrey(n: Word16, k: nat)
    ensures Channel(7, 7, n, k) == 7
  {
    assert Delta(7, 7, Divisor(n)) == 0;
    assert k * 0 == 0;
  }

  /** From grey the red is reached at the far end, and only if that is exact. */
  lemma {:induction false} RisesAtEnd(n: Word16, k: nat)
    requires 0 < n <= 15 && k <= n
    ensures Channel(7, 8, n, k) == 8 <==> k == n && Exact(n)
  {
    StepOfOne(n, k);
    AccumulatorIsExact(7, 8, n, k);
  }

  lemma {:induction false} StepOfOne(n: nat, k: nat)
    requires 0 < n <= 15 && k <= n
    ensures 0 <= k * ExactStep(7, 8, n) <= 256
    ensures k * ExactStep(7, 8, n) == 256 <==> k == n && Exact(n)
  {
    var q: int := 128 / n;
    ExactDivides(n);
    assert 128 == n * q + 128 % n && q > 0;
    PartOfSteps(n, k, q);
    assert ExactStep(7, 8, n) == 2 * q && k * (2 * q) == 2 * (k * q);
  }

  lemma {:induction false} PartOfSteps(n: nat, k: nat, q: int)
    requires k <= n && q > 0
    ensures 0 <= k * q <= n * q && (k < n ==> k * q < n * q)
  {
  }

  /** Towards grey the red is left at once. */
  lemma {:induction false} FallsAtOnce(n: Word16, k: nat)
    requires 0 < n <= 15 && k <= n
    ensures Channel(8, 7, n, k) == 8 <==> k == 0
  {
    StepOfOne(n, k);
    assert ExactStep(8, 7, n) == -ExactStep(7, 8, n) < 0;
    assert k * ExactStep(8, 7, n) == -(k * ExactStep(7, 8, n));
    assert k * ExactStep(7, 8, n) == 0 <==> k == 0;
    AccumulatorIsExact(8, 7, n, k);
    ExactBetween(8, 7, n, k);
  }

  lemma {:induction false} RedAt(n: Word16, k: nat)
    requires 0 < n <= 15 && k <= n
    ensures ColorAt(GREY, RED, n, k) == RED <==> k == n && Exact(n)
    ensures ColorAt(RED, GREY, n, k) == RED <==> k == 0
  {
    GreyStaysGrey(n, k);
    RisesAtEnd(n, k);
    FallsAtOnce(n, k);
  }

  lemma {:induction false} GreyTint(f: Fill, i: nat)
    requires f.from == GREY && f.to == GREY && Low(f) <= i <= High(f)
    ensures Tint(f, i) != RED
  {
    GreyStaysGrey(High(f) - Low(f), i - Low(f));
  }

  /** Of a gradient with one red end only that end is red, and only if it is exact. */
  lemma {:induction false} RedUpwards(start: Byte, end: Byte, i: nat)
    requires start <= i <= end <= 15 && start < end
    ensures Tint(Fill(start, RED, end, GREY), i) == RED <==> i == start
    ensures Tint(Fill(start, GREY, end, RED), i) == RED <==> i == end && Exact(end - start)
  {
    var n: Word16, k: nat := end - start, i - start;
    assert Tint(Fill(start, RED, end, GREY), i) == ColorAt(RED, GREY, n, k);
    assert Tint(Fill(start, GREY, end, RED), i) == ColorAt(GREY, RED, n, k);
    RedAt(n, k);
  }

  lemma {:induction false} RedDownwards(start: Byte, end: Byte, i: nat)
    requires end <= i <= start <= 15 && end < start
    ensures Tint(Fill(start, RED, end, GREY), i) == RED <==> i == start && Exact(start - end)
    ensures Tint(Fill(start, GREY, end, RED), i) == RED <==> i == end
  {
    var n: Word16, k: nat := start - end, i - end;
    assert Tint(Fill(start, RED, end, GREY), i) == ColorAt(GREY, RED, n, k);
    assert Tint(Fill(start, GREY, end, RED), i) == ColorAt(RED, GREY, n, k);
    RedAt(n, k);
  }

  lemma {:induction false} LevelTint(f: Fill)
    requires f.start == f.end
    ensures Tint(f, f.start) == f.from
  {
    FirstIsExact(f.from, f.to, 0);
  }

  lemma {:induction false} FromRedTint(f: Fill, i: nat)
    requires f.start <= 15 && f.end <= 15 && Low(f) <= i <= High(f)
    requires f.from == RED && f.to == GREY
    ensures Tint(f, i) == RED <==> i == f.start && StartsExactly(f)
  {
    assert f == Fill(f.start, RED, f.end, GREY);
    if f.start < f.end {
      RedUpwards(f.start, f.end, i);
    } else if f.end < f.start {
      RedDownwards(f.start, f.end, i);
    } else {
      LevelTint(f);
    }
  }

  lemma {:induction false} ToRedTint(f: Fill, i: nat)
    requires f.start <= 15 && f.end <= 15 && Low(f) <= i <= High(f)
    requires f.from == GREY && f.to == RED
    ensures Tint(f, i) == RED <==> i == f.end && EndsExactly(f)
  {
    assert f == Fill(f.start, GREY, f.end, RED);
    if f.start < f.end {
      RedUpwards(f.start, f.end, i);
    } else if f.end < f.start {
      RedDownwards(f.start, f.end, i);
    } else {
      LevelTint(f);
    }
  }

  lemma {:induction false} LastHit(stops: seq<Stop>, m0: nat, i: int) returns (m: nat)
    requires m0 + 1 < |stops| && Hit(stops, m0, i)
    ensures m0 <= m < |stops| - 1 && Hit(stops, m, i) && Clear(stops, m + 1, i)
    decreases |stops| - m0
  {
    m := m0;
    if l: nat :| m0 < l < |stops| - 1 && Hit(stops, l, i) {
      m := LastHit(stops, l, i);
    }
  }

  lemma {:induction false} RecoloredStripe(stops: seq<Stop>, p: nat, m: nat)
    requires m + 1 < |stops|
    ensures var f, g := Stripe(Recolored(stops, p), m), Stripe(stops, m);
            f == Fill(g.start, if m == p then RED else GREY, g.end, if m + 1 == p then RED else GREY)
  {
    SameSlots(stops, Recolored(stops, p), m + 1, |stops| < 16);
  }

  /** Where the recoloured palette is red, stop p departs or arrives. */
  lemma {:induction false} RedIsDepartureOrArrival(entries: seq<Color>, stops: seq<Stop>, p: nat, m0: nat, i: nat)
    requires |entries| == 16 && p < |stops| && m0 + 1 < |stops| && Hit(stops, m0, i)
    requires Loaded(entries, Recolored(stops, p))[i] == RED
    ensures || (m0 <= p && Departs(stops, p) && i == Stripe(stops, p).start)
            || (m0 < p && Arrives(stops, p))
  {
    var m := LastHit(stops, m0, i);
    LastHitTints(entries, stops, Recolored(stops, p), m, i);
    RecoloredStripe(stops, p, m);
    var f := Stripe(Recolored(stops, p), m);
    if m == p {
      FromRedTint(f, i);
    } else if m + 1 == p {
      ToRedTint(f, i);
    } else {
      GreyTint(f, i);
    }
  }

  /** Every entry is covered. */
  lemma {:induction false} SomeHit(stops: seq<Stop>, i: nat) returns (m: nat)
    requires Ended(stops) && i < 16
    ensures m + 1 < |stops| && Hit(stops, m, i)
  {
    EveryEntryWritten(stops);
    var fills := Fills16(stops, |stops|, |stops| < 16);
    assert Covered(fills, i);
    m :| 0 <= m < |fills| && Low(fills[m]) <= i <= High(fills[m]);
    Fills16At(stops, |stops|, m, |stops| < 16);
  }

  lemma {:induction false} NotRed(entries: seq<Color>, stops: seq<Stop>, p: nat)
    requires |entries| == 16 && Ended(stops) && p < |stops| && !Departs(stops, p) && !Arrives(stops, p)
    ensures RED !in Loaded(entries, Recolored(stops, p))
  {
    forall i: nat | i < 16 ensures Loaded(entries, Recolored(stops, p))[i] != RED {
      var m := SomeHit(stops, i);
      if Loaded(entries, Recolored(stops, p))[i] == RED {
        RedIsDepartureOrArrival(entries, stops, p, m, i);
      }
    }
  }

  /** Whatever the order of the indices: the palette has the colour of a stop for every colouring exactly when one
      of the two gradients at the stop shows it. */
  lemma {:induction false} ShownIff(stops: seq<Stop>, p: nat)
    requires Ended(stops) && p < |stops|
    ensures AlwaysShown(stops, p) <==> Departs(stops, p) || Arrives(stops, p)
  {
    if Departs(stops, p) || Arrives(stops, p) {
      forall entries: seq<Color>, other: seq<Stop> | |entries| == 16 && SameIndices(stops, other)
        ensures other[p].color in Loaded(entries, other)
      {
        if Departs(stops, p) {
          DepartsShows(entries, stops, other, p);
        } else {
          ArrivesShows(entries, stops, other, p);
        }
      }
    } else {
      var entries, other := seq(16, _ => GREY), Recolored(stops, p);
      NotRed(entries, stops, p);
      assert other[p].color !in Loaded(entries, other);
    }
  }

  /** It is where its own gradient starts exactly when that gradient shows it. */
  lemma {:induction false} KeptIff(stops: seq<Stop>, p: nat)
    requires p + 1 < |stops|
    ensures AlwaysKept(stops, p) <==> Uncovered(stops, p) && StartsExactly(Stripe(stops, p))
  {
    if Departs(stops, p) {
      forall entries: seq<Color>, other: seq<Stop> | |entries| == 16 && SameIndices(stops, other)
        ensures Loaded(entries, other)[Stripe(stops, p).start] == other[p].color
      {
        DepartsShows(entries, stops, other, p);
      }
    } else if AlwaysKept(stops, p) {
      var entries, other := seq(16, _ => GREY), Recolored(stops, p);
      assert Loaded(entries, other)[Stripe(stops, p).start] == other[p].color;
      RedIsDepartureOrArrival(entries, stops, p, p, Stripe(stops, p).start);
    }
  }

  // ---------------------------------------------------------------- the condition on the indices

  predicate Ascending(stops: seq<Stop>) {
    forall p, q :: 0 <= p <= q < |stops| ==> stops[p].index <= stops[q].index
  }

  /** The entry that the index of a stop asks for; the first gradient starts at 0. */
  function Bucket(stops: seq<Stop>, q: nat): (b: int)
    requires q < |stops|
    ensures 0 <= b <= 15
  {
    if q == 0 then 0 else stops[q].index / 16
  }

  lemma {:induction false} BucketsAscend(stops: seq<Stop>, q: nat, r: nat)
    requires Ascending(stops) && q <= r < |stops|
    ensures Bucket(stops, q) <= Bucket(stops, r)
  {
  }

  /** A gradient goes where its indices ask, unless there are fewer than 16 stops and an entry is left after the
      gradient before. */
  lemma {:induction false} StripeIs(stops: seq<Stop>, p: nat)
    requires p + 1 < |stops|
    ensures var f, b, c := Stripe(stops, p), Bucket(stops, p), Bucket(stops, p + 1);
            && c <= f.end
            && if |stops| < 16 && p > 0 && Stripe(stops, p - 1).end < 15 then
                 var e := Stripe(stops, p - 1).end; f.start == e + 1 && f.end == if c <= e then e + 1 else c
               else f.start == b && f.end == c
  {
    var few := |stops| < 16;
    if p > 0 {
      StripeIs(stops, p - 1);
      assert few ==> LastSlot(stops, p + 1, few) == Stripe(stops, p - 1).end;
    }
    assert StartIndex(stops, p + 1) / 16 == Bucket(stops, p);
  }

  /** With few stops, whose gradients from entry s on all take an entry of their own, stop v is the first that finds
      none.  If it belongs into x or before, x is painted over. */
  predicate TurnedAway(stops: seq<Stop>, p: nat, s: int, x: int) {
    var v := p + 16 - s;
    p < v < |stops| - 1 && Bucket(stops, v) <= x
  }

  /** The entry s in which the gradient of stop p starts is painted over later: with few stops in this way, with many
      when the next stop belongs into the same entry. */
  predicate Overrun(stops: seq<Stop>, p: nat, s: int)
    requires p + 1 < |stops|
  {
    if |stops| < 16 then TurnedAway(stops, p, s, s)
    else p + 2 < |stops| && Bucket(stops, p + 1) == Bucket(stops, p)
  }

  /** As long as later stops belong into x or before, gradients use up entry by entry. */
  lemma {:induction false} EndsBeyond(stops: seq<Stop>, p: nat, m: nat, x: int)
    requires Ascending(stops) && |stops| < 16 && p < m < |stops| - 1
    requires x <= Stripe(stops, p).start && !TurnedAway(stops, p, Stripe(stops, p).start, x)
    ensures var s, e := Stripe(stops, p).start, Stripe(stops, m - 1).end;
            if Bucket(stops, m) <= x then e == s + (m - 1 - p) < 15 else e > x
    decreases m
  {
    var v := p + 16 - Stripe(stops, p).start;
    if v <= m { BucketsAscend(stops, v, m); }
    StripeIs(stops, m - 1);
    BucketsAscend(stops, m - 1, m);
    if p < m - 1 {
      EndsBeyond(stops, p, m - 1, x);
    }
  }

  lemma {:induction false} StartsBeyond(stops: seq<Stop>, p: nat, m: nat, x: int)
    requires Ascending(stops) && |stops| < 16 && p < m < |stops| - 1
    requires x <= Stripe(stops, p).start && !TurnedAway(stops, p, Stripe(stops, p).start, x)
    ensures Stripe(stops, m).start > x
  {
    EndsBeyond(stops, p, m, x);
    StripeIs(stops, m);
  }

  /** From entry s on, a gradient ends in the last entry before sixteen are asked for. */
  lemma {:induction false} FirstFull(stops: seq<Stop>, p: nat, t0: nat, v: nat) returns (t: nat)
    requires |stops| < 16 && p <= t0 < v < |stops| - 1
    requires v == p + 16 - Stripe(stops, p).start && Stripe(stops, t0).end >= Stripe(stops, p).start + (t0 - p)
    ensures t0 <= t < v && Stripe(stops, t).end == 15
    decreases v - t0
  {
    t := t0;
    if Stripe(stops, t0).end < 15 {
      StripeIs(stops, t0 + 1);
      t := FirstFull(stops, p, t0 + 1, v);
    }
  }

  /** Gradients leave no gap. */
  lemma {:induction false} ReachesEntry(stops: seq<Stop>, m0: nat, s: int) returns (m: nat)
    requires Ended(stops) && Ascending(stops) && |stops| < 16 && m0 + 1 < |stops|
    requires Stripe(stops, m0).start <= s <= 15
    ensures m0 <= m < |stops| - 1 && Hit(stops, m, s)
    decreases |stops| - m0
  {
    m := m0;
    StripeIs(stops, m0);
    BucketsAscend(stops, m0, m0 + 1);
    if Stripe(stops, m0).end < s {
      assert Bucket(stops, m0 + 1) < 15;
      StripeIs(stops, m0 + 1);
      m := ReachesEntry(stops, m0 + 1, s);
    }
  }

  lemma {:induction false} StartsUpwards(stops: seq<Stop>, p: nat)
    requires Ascending(stops) && p + 1 < |stops|
    ensures Stripe(stops, p).start <= Stripe(stops, p).end
  {
    StripeIs(stops, p);
    BucketsAscend(stops, p, p + 1);
  }

  lemma {:induction false} FewClearIff(stops: seq<Stop>, p: nat, x: int)
    requires Ended(stops) && Ascending(stops) && p + 1 < |stops| < 16 && 0 <= x <= Stripe(stops, p).start
    ensures Clear(stops, p + 1, x) <==> !TurnedAway(stops, p, Stripe(stops, p).start, x)
  {
    if TurnedAway(stops, p, Stripe(stops, p).start, x) {
      var v := p + 16 - Stripe(stops, p).start;
      StartsUpwards(stops, p);
      var t := FirstFull(stops, p, p, v);
      StripeIs(stops, t + 1);
      BucketsAscend(stops, t + 1, v);
      var m := ReachesEntry(stops, t + 1, x);
    } else {
      forall m: nat | p < m < |stops| - 1 ensures !Hit(stops, m, x) {
        StartsBeyond(stops, p, m, x);
        StartsUpwards(stops, m);
      }
    }
  }

  lemma {:induction false} UncoveredIff(stops: seq<Stop>, p: nat)
    requires Ended(stops) && Ascending(stops) && p + 1 < |stops|
    ensures Uncovered(stops, p) <==> !Overrun(stops, p, Stripe(stops, p).start)
  {
    if |stops| >= 16 {
      ManyUncoveredIff(stops, p);
    } else {
      FewClearIff(stops, p, Stripe(stops, p).start);
    }
  }

  lemma {:induction false} ManyUncoveredIff(stops: seq<Stop>, p: nat)
    requires Ascending(stops) && p + 1 < |stops| && |stops| >= 16
    ensures Uncovered(stops, p) <==> !Overrun(stops, p, Stripe(stops, p).start)
  {
    StripeIs(stops, p);
    if p + 2 < |stops| {
      StripeIs(stops, p + 1);
      BucketsAscend(stops, p + 1, p + 2);
      BucketsAscend(stops, p, p + 1);
      if Bucket(stops, p) == Bucket(stops, p + 1) {
        assert Hit(stops, p + 1, Stripe(stops, p).start);
      }
    }
    forall m: nat | p < m < |stops| - 1 && !Overrun(stops, p, Stripe(stops, p).start)
      ensures !Hit(stops, m, Stripe(stops, p).start)
    {
      StripeIs(stops, m);
      BucketsAscend(stops, p + 1, m);
      BucketsAscend(stops, m, m + 1);
    }
  }

  // ---------------------------------------------------------------- where a gradient starts

  /** The entry in which the gradients from stop u to stop p - 1 end if each has one of its own. */
  function Reach(stops: seq<Stop>, u: nat, p: nat): int
    requires u < p < |stops|
  {
    if p == u + 1 then Bucket(stops, p)
    else
      var r := Reach(stops, u, p - 1) + 1;
      if r < Bucket(stops, p) then Bucket(stops, p) else r
  }

  /** That is, the furthest that the bucket of any of them and the gradients after it lead. */
  lemma {:induction false} ReachIff(stops: seq<Stop>, u: nat, p: nat, x: int)
    requires u < p < |stops|
    ensures Reach(stops, u, p) >= x <==> exists q :: u < q <= p && Bucket(stops, q) + (p - q) >= x
  {
    if p == u + 1 {
      assert Reach(stops, u, p) == Bucket(stops, p) + (p - p);
    } else {
      ReachIff(stops, u, p - 1, x - 1);
      if Bucket(stops, p) >= x {
        assert Bucket(stops, p) + (p - p) >= x;
      } else if Reach(stops, u, p - 1) >= x - 1 {
        var q :| u < q <= p - 1 && Bucket(stops, q) + (p - 1 - q) >= x - 1;
        assert Bucket(stops, q) + (p - q) >= x;
      }
    }
  }

  /** The last stop up to p that found no entry left, and where the allocation begins again. */
  function Round(stops: seq<Stop>, p: nat): (u: nat)
    requires p < |stops|
    ensures u <= p
  {
    if p == 0 then 0
    else
      var u := Round(stops, p - 1);
      if Reach(stops, u, p) >= 15 then p else u
  }

  /** The entry of the gradient of stop p, from the indices alone. */
  function Entry(stops: seq<Stop>, p: nat): int
    requires p + 1 < |stops|
  {
    if |stops| >= 16 || Round(stops, p) == p then Bucket(stops, p) else Reach(stops, Round(stops, p), p) + 1
  }

  lemma {:induction false} EntryIs(stops: seq<Stop>, p: nat)
    requires p + 1 < |stops|
    ensures Stripe(stops, p).start == Entry(stops, p)
    ensures |stops| < 16 ==> Stripe(stops, p).end == Reach(stops, Round(stops, p), p + 1)
  {
    StripeIs(stops, p);
    if p > 0 {
      EntryIs(stops, p - 1);
    }
  }

  /** The previous gradient shows the colour of stop p: that of the last stop if its length is right, that of another
      if moreover there are few stops, an entry is left after it, and it is not painted over. */
  predicate Reached(stops: seq<Stop>, p: nat)
    requires 0 < p < |stops|
  {
    if p == |stops| - 1 then Exact(15 - Entry(stops, p - 1))
    else
      var x := Entry(stops, p) - 1;
      && |stops| < 16 && Round(stops, p) < p
      && Exact(x - Entry(stops, p - 1)) && !TurnedAway(stops, p, x + 1, x)
  }

  /** The gradient to the last stop ends in the last entry and is the last. */
  lemma {:induction false} LastArrives(stops: seq<Stop>)
    requires Ended(stops) && Ascending(stops)
    ensures Arrives(stops, |stops| - 1) <==> Exact(15 - Entry(stops, |stops| - 2))
  {
    var p := |stops| - 2;
    EntryIs(stops, p);
    StripeIs(stops, p);
    StartsUpwards(stops, p);
  }

  lemma {:induction false} NoneArrives(stops: seq<Stop>, p: nat)
    requires Ended(stops) && Ascending(stops) && 0 < p < |stops| - 1
    requires |stops| >= 16 || Stripe(stops, p - 1).end == 15
    ensures !Arrives(stops, p)
  {
    StripeIs(stops, p);
    if |stops| >= 16 {
      StripeIs(stops, p - 1);
      StartsUpwards(stops, p);
      assert Hit(stops, p, Stripe(stops, p - 1).end);
    } else {
      var m := ReachesEntry(stops, p, 15);
    }
  }

  lemma {:induction false} FewArrive(stops: seq<Stop>, p: nat)
    requires Ended(stops) && Ascending(stops) && 0 < p < |stops| - 1 < 15
    requires Stripe(stops, p - 1).end < 15
    ensures var f, s := Stripe(stops, p - 1), Stripe(stops, p).start;
            && f.end == s - 1
            && (Arrives(stops, p) <==> Exact(s - 1 - f.start) && !TurnedAway(stops, p, s, s - 1))
  {
    var x := Stripe(stops, p - 1).end;
    StripeIs(stops, p - 1);
    StripeIs(stops, p);
    StartsUpwards(stops, p - 1);
    StartsUpwards(stops, p);
    FewClearIff(stops, p, x);
    assert !Hit(stops, p, x);
    assert Clear(stops, p, x) <==> Clear(stops, p + 1, x);
  }

  lemma {:induction false} ArrivesIff(stops: seq<Stop>, p: nat)
    requires Ended(stops) && Ascending(stops) && 0 < p < |stops|
    ensures Arrives(stops, p) <==> Reached(stops, p)
  {
    if p == |stops| - 1 {
      LastArrives(stops);
    } else {
      EntryIs(stops, p - 1);
      EntryIs(stops, p);
      if |stops| >= 16 || Stripe(stops, p - 1).end == 15 {
        NoneArrives(stops, p);
      } else {
        FewArrive(stops, p);
      }
    }
  }

  /** The condition for one stop, from the indices alone. */
  predicate Survives(stops: seq<Stop>, p: nat)
    requires 1 < |stops| && p < |stops|
  {
    (p + 1 < |stops| && !Overrun(stops, p, Entry(stops, p))) || (p > 0 && Reached(stops, p))
  }

  /** With ascending indices the palette has the colour of a stop for every colouring exactly on this condition. */
  lemma {:induction false} ColorSurvivesIff(stops: seq<Stop>, p: nat)
    requires Ended(stops) && Ascending(stops) && p < |stops|
    ensures AlwaysShown(stops, p) <==> Survives(stops, p)
  {
    ShownIff(stops, p);
    if p > 0 {
      ArrivesIff(stops, p);
    }
    if p + 1 < |stops| {
      StartsUpwards(stops, p);
      EntryIs(stops, p);
      UncoveredIff(stops, p);
    }
  }

  // ---------------------------------------------------------------- the condition for all stops

  /** The first n stops keep their colours. */
  ghost predicate AllShown(stops: seq<Stop>, n: nat)
    requires n <= |stops|
  {
    forall p: nat :: p < n ==> AlwaysShown(stops, p)
  }

  lemma {:induction false} AllShownIff(stops: seq<Stop>, n: nat)
    requires Ended(stops) && Ascending(stops) && n <= |stops|
    ensures AllShown(stops, n) <==> forall p: nat :: p < n ==> Survives(stops, p)
  {
    forall p: nat | p < n ensures AlwaysShown(stops, p) <==> Survives(stops, p) {
      ColorSurvivesIff(stops, p);
    }
  }

  /** With few stops, the gradient that leads to the last stop but two ends in entry 13 at the latest, or in entry 14
      if it does so exactly and the next stop belongs into the last entry; with many, no two stops but the last
      belong into one entry. */
  predicate RoomForOthers(stops: seq<Stop>)
    requires 2 <= |stops|
  {
    var n := |stops|;
    if n >= 16 then forall q: nat :: 0 < q < n - 1 ==> Bucket(stops, q - 1) < Bucket(stops, q)
    else
      || n <= 3
      || Reach(stops, 0, n - 3) <= 13
      || (Reach(stops, 0, n - 3) == 14 && Bucket(stops, n - 2) == 15 && Exact(14 - Entry(stops, n - 4)))
  }

  /** With few stops, the gradient that leads to the last stop but one ends in entry 13, 12, 10 or 6, so that the last
      gradient is exact; with many, there are sixteen, each belongs into the entry of its number. */
  predicate RoomForAll(stops: seq<Stop>)
    requires 2 <= |stops|
  {
    var n := |stops|;
    if n >= 16 then n == 16 && forall q: nat :: q < 15 ==> Bucket(stops, q) == q
    else n > 2 && Exact(14 - Reach(stops, 0, n - 2))
  }

  /** Each stop leads one entry further at least. */
  lemma {:induction false} ReachGrows(stops: seq<Stop>, p: nat, q: nat)
    requires 0 < p <= q < |stops|
    ensures p - 1 <= Reach(stops, 0, p) <= Reach(stops, 0, q) - (q - p)
    decreases q
  {
    if p < q {
      ReachGrows(stops, p, q - 1);
    } else if p > 1 {
      ReachGrows(stops, p - 1, p - 1);
    }
  }

  lemma {:induction false} FirstRound(stops: seq<Stop>, q: nat)
    requires q < |stops| && (q == 0 || Reach(stops, 0, q) < 15)
    ensures Round(stops, q) == 0
  {
    if q > 0 {
      if q > 1 { ReachGrows(stops, q - 1, q); }
      FirstRound(stops, q - 1);
    }
  }

  /** While entries are left, the gradients of earlier stops start early enough. */
  lemma {:induction false} EarlyEntry(stops: seq<Stop>, p: nat, q: nat)
    requires p <= q && 0 < q && q + 1 < |stops| < 16 && Reach(stops, 0, q) < 15
    ensures Round(stops, p) == 0
    ensures Entry(stops, p) == if p == 0 then 0 else Reach(stops, 0, p) + 1
    ensures Entry(stops, p) <= Reach(stops, 0, q) + 1 - (q - p)
  {
    if p > 0 { ReachGrows(stops, p, q); }
    ReachGrows(stops, q, q);
    FirstRound(stops, p);
  }

  /** The first stop that finds no entry left. */
  lemma {:induction false} FirstTurnedAway(stops: seq<Stop>, q: nat) returns (t: nat)
    requires 0 < q < |stops| && Reach(stops, 0, q) >= 15
    ensures 0 < t <= q && Reach(stops, 0, t) >= 15 && (t == 1 || Reach(stops, 0, t - 1) < 15) && Round(stops, t) == t
  {
    if q > 1 && Reach(stops, 0, q - 1) >= 15 {
      t := FirstTurnedAway(stops, q - 1);
    } else {
      t := q;
      FirstRound(stops, q - 1);
    }
  }

  /** The stop before it survives only if the last entry is asked for. */
  lemma {:induction false} LastEntryAsked(stops: seq<Stop>, t: nat)
    requires Ascending(stops) && 0 < t < |stops| - 1 < 15 && Survives(stops, t - 1)
    requires Reach(stops, 0, t) >= 15 && (t == 1 || Reach(stops, 0, t - 1) < 15)
    ensures Bucket(stops, t) == 15
  {
    FirstRound(stops, t - 1);
  }

  lemma {:induction false} FewOthersNeedRoom(stops: seq<Stop>)
    requires Ascending(stops) && 2 <= |stops| < 16 && forall p: nat :: p < |stops| - 1 ==> Survives(stops, p)
    ensures RoomForOthers(stops)
  {
    var n := |stops|;
    if n > 3 && Reach(stops, 0, n - 3) >= 15 {
      var t := FirstTurnedAway(stops, n - 3);
      assert Survives(stops, t - 1) && Survives(stops, t);
      LastEntryAsked(stops, t);
      BucketsAscend(stops, t, t + 1);
      assert Overrun(stops, t, 15);
    } else if n > 3 && Reach(stops, 0, n - 3) == 14 {
      assert Survives(stops, n - 3);
      EarlyEntry(stops, n - 3, n - 3);
    }
  }

  lemma {:induction false} FewOthersSurvive(stops: seq<Stop>, p: nat)
    requires Ascending(stops) && 2 <= |stops| < 16 && RoomForOthers(stops) && p < |stops| - 1
    ensures Survives(stops, p)
  {
    var n := |stops|;
    if p + 2 < n && n > 3 {
      EarlyEntry(stops, p, n - 3);
      if p == n - 3 { EarlyEntry(stops, p, p); }
    }
  }

  lemma {:induction false} ManyOthersSurviveIff(stops: seq<Stop>)
    requires Ascending(stops) && |stops| >= 16
    ensures RoomForOthers(stops) <==> forall p: nat :: p < |stops| - 1 ==> Survives(stops, p)
  {
    forall p: nat | p + 2 < |stops| ensures Survives(stops, p) <==> Bucket(stops, p) < Bucket(stops, p + 1) {
      BucketsAscend(stops, p, p + 1);
    }
    if RoomForOthers(stops) {
      forall p: nat | p + 2 < |stops| ensures Bucket(stops, p) < Bucket(stops, p + 1) {
        assert Bucket(stops, p + 1 - 1) < Bucket(stops, p + 1);
      }
    }
  }

  /** The condition for all stops but the last, on their indices alone. */
  lemma {:induction false} OtherColorsSurviveIff(stops: seq<Stop>)
    requires Ended(stops) && Ascending(stops)
    ensures AllShown(stops, |stops| - 1) <==> RoomForOthers(stops)
  {
    AllShownIff(stops, |stops| - 1);
    if |stops| >= 16 {
      ManyOthersSurviveIff(stops);
    } else if RoomForOthers(stops) {
      forall p: nat | p < |stops| - 1 ensures Survives(stops, p) {
        FewOthersSurvive(stops, p);
      }
    } else if AllShown(stops, |stops| - 1) {
      FewOthersNeedRoom(stops);
    }
  }

  lemma {:induction false} FewNeedRoom(stops: seq<Stop>)
    requires Ascending(stops) && 2 <= |stops| < 16 && forall p: nat :: p < |stops| ==> Survives(stops, p)
    ensures RoomForAll(stops)
  {
    var n := |stops|;
    assert Survives(stops, n - 1);
    if n > 2 && Reach(stops, 0, n - 2) >= 15 {
      var t := FirstTurnedAway(stops, n - 2);
      assert Survives(stops, t - 1);
      LastEntryAsked(stops, t);
      BucketsAscend(stops, t, n - 2);
      EntryIs(stops, n - 2);
      StripeIs(stops, n - 2);
    } else if n > 2 {
      EarlyEntry(stops, n - 2, n - 2);
    }
  }

  lemma {:induction false} FewSurvive(stops: seq<Stop>, p: nat)
    requires Ascending(stops) && 2 <= |stops| < 16 && RoomForAll(stops) && p < |stops|
    ensures Survives(stops, p)
  {
    EarlyEntry(stops, if p < |stops| - 1 then p else p - 1, |stops| - 2);
  }

  /** Buckets that differ go up by one at least. */
  lemma {:induction false} BucketsSpread(stops: seq<Stop>, p: nat, q: nat)
    requires |stops| >= 16 && RoomForOthers(stops) && p <= q < |stops| - 1
    ensures Bucket(stops, p) + (q - p) <= Bucket(stops, q)
    decreases q
  {
    if p < q {
      BucketsSpread(stops, p, q - 1);
    }
  }

  lemma {:induction false} ManySurviveIff(stops: seq<Stop>)
    requires Ascending(stops) && |stops| >= 16
    ensures RoomForAll(stops) <==> RoomForOthers(stops) && Survives(stops, |stops| - 1)
  {
    var last := |stops| - 2;
    if RoomForOthers(stops) && Survives(stops, |stops| - 1) {
      BucketsSpread(stops, 0, last);
      forall q: nat | q < 15 ensures Bucket(stops, q) == q {
        BucketsSpread(stops, 0, q);
        BucketsSpread(stops, q, last);
      }
    }
  }

  /** The condition for the whole list, on its indices alone. */
  lemma {:induction false} AllColorsSurviveIff(stops: seq<Stop>)
    requires Ended(stops) && Ascending(stops)
    ensures AllShown(stops, |stops|) <==> RoomForAll(stops)
  {
    AllShownIff(stops, |stops|);
    if |stops| >= 16 {
      ManySurviveIff(stops);
      ManyOthersSurviveIff(stops);
    } else if RoomForAll(stops) {
      forall p: nat | p < |stops| ensures Survives(stops, p) {
        FewSurvive(stops, p);
      }
    } else if AllShown(stops, |stops|) {
      FewNeedRoom(stops);
    }
  }

  // ---------------------------------------------------------------- lists that lose colours

  /** The third of these five stops is painted over where its gradient starts, but stands where the one before
      ends; the fourth starts in the last entry and leaves no room for the fifth. */
  lemma {:induction false} LateArrivalShown(stops: seq<Stop>)
    requires |stops| == 5 && stops[0].index == 0 && stops[1].index == 80 && stops[2].index == 224
    requires stops[3].index == 240 && stops[4].index == 255
    ensures Ended(stops) && Ascending(stops)
    ensures AllShown(stops, 4) && !AlwaysKept(stops, 2) && !AlwaysShown(stops, 4)
  {
    assert Reach(stops, 0, 2) == 14 && Entry(stops, 1) == 6;
    OtherColorsSurviveIff(stops);
    FirstRound(stops, 2);
    EntryIs(stops, 2);
    KeptIff(stops, 2);
    UncoveredIff(stops, 2);
    ColorSurvivesIff(stops, 4);
  }

  /** Eleven stops crowd together and use up the entries one by one; then the last gradient begins at its own index
      again and paints over nine of them. */
  lemma {:induction false} CrowdedStopsLost(stops: seq<Stop>, p: nat)
    requires |stops| == 13 && stops[0].index == 0 && stops[12].index == 255
    requires forall q :: 1 <= q <= 11 ==> stops[q].index == 99 + q
    requires 1 <= p <= 9
    ensures Ended(stops) && Ascending(stops)
    ensures !AlwaysShown(stops, p)
  {
    CrowdedSlots(stops, p);
    CrowdedSlots(stops, p - 1);
    EntryIs(stops, p);
    EntryIs(stops, p - 1);
    ColorSurvivesIff(stops, p);
  }

  lemma {:induction false} CrowdedSlots(stops: seq<Stop>, p: nat)
    requires |stops| == 13 && stops[0].index == 0 && stops[12].index == 255
    requires forall q :: 1 <= q <= 11 ==> stops[q].index == 99 + q
    requires p <= 9
    ensures Stripe(stops, p).end == 6 + p && (p > 0 ==> Stripe(stops, p).start == 6 + p)
  {
    StripeIs(stops, p);
    if p > 0 {
      CrowdedSlots(stops, p - 1);
    }
  }

  lemma {:induction false} SpikeFills(black: Color, red: Color, stops: seq<Stop>)
    requires stops == [Stop(0, black), Stop(250, red), Stop(252, black), Stop(255, black)]
    ensures Ended(stops) && Ascending(stops) && !RoomForOthers(stops)
    ensures Fills16(stops, 4, true)[0] == Fill(0, black, 15, red)
    ensures Fills16(stops, 4, true)[1] == Fill(15, red, 15, black)
    ensures Fills16(stops, 4, true)[2] == Fill(15, black, 15, black)
  {
    assert Fill16(stops, 1, true) == Fill(0, black, 15, red);
    assert Bucket(stops, 1) == 15;
    assert LastSlot(stops, 2, true) == 15;
    assert Fill16(stops, 2, true) == Fill(15, red, 15, black);
    assert Fill16(stops, 3, true) == Fill(15, black, 15, black);
    Fills16At(stops, 4, 0, true);
    Fills16At(stops, 4, 1, true);
    Fills16At(stops, 4, 2, true);
  }

  lemma {:induction false} NotYetFull(i: nat)
    requires i < 15
    ensures Channel(0, 255, 15, i) < 255
  {
    AccumulatorIsExact(0, 255, 15, i);
    assert ExactStep(0, 255, 15) == 4352;
    MultiplyMonotone(i, 14, 4352);
    assert ExactAccumulator(0, 255, 15, i) == i * 4352 <= 60928;
  }

  lemma {:induction false} NotYetRed(black: Color, red: Color, i: nat)
    requires black == Color(0, 0, 0) && red == Color(255, 0, 0) && i < 15
    ensures ColorAt(black, red, 15, i) != red
  {
    NotYetFull(i);
  }

  lemma {:induction false} SpikeTint(entries: seq<Color>, fills: seq<Fill>, i: nat)
    requires |entries| == 16 && i < 16 && |fills| == 3
    requires fills[0].start == 0 && fills[0].end == 15
    requires fills[1].start == fills[1].end == 15 && fills[2].start == fills[2].end == 15
    ensures PaintedAll(entries, fills)[i] ==
            if i < 15 then ColorAt(fills[0].from, fills[0].to, 15, i) else fills[2].from
  {
    assert Low(fills[1]) == Low(fills[2]) == 15;
    if i < 15 {
      LastTintStays(entries, fills, 0, i);
      assert Tint(fills[0], i) == ColorAt(fills[0].from, fills[0].to, 15, i);
    } else {
      LastTintStays(entries, fills, 2, i);
      TintAtStart(fills[2]);
    }
  }

  /** When the slots run out, a colour can be lost although 13 entries are to spare: here the red of the
      second stop appears in no entry. */
  lemma {:induction false} LateSpikeLost(entries: seq<Color>, black: Color, red: Color, stops: seq<Stop>, i: nat)
    requires |entries| == 16 && i < 16 && black == Color(0, 0, 0) && red == Color(255, 0, 0)
    requires stops == [Stop(0, black), Stop(250, red), Stop(252, black), Stop(255, black)]
    ensures Ended(stops) && Ascending(stops) && !RoomForOthers(stops)
    ensures PaintedAll(entries, Fills16(stops, |stops|, |stops| < 16))[i] != red
  {
    var fills := Fills16(stops, 4, true);
    SpikeFills(black, red, stops);
    SpikeTint(entries, fills, i);
    if i < 15 {
      NotYetRed(black, red, i);
    }
  }
}
