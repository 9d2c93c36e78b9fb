/** The palette cross-fade nblendPaletteTowardPalette (libraries/FastLED/colorutils.cpp:1110-1137). */
module Crossfade {
  import opened Octets

  /** One channel moves up by one, or down by two (by one when only one is missing). */
  function Toward(c: Byte, t: Byte): (r: Byte)
    ensures c <= t ==> c <= r <= t
    ensures t <= c ==> t <= r <= c
    ensures r == c <==> c == t
  {
    if c < t then c + 1 else if c - 1 > t then c - 2 else if c > t then c - 1 else c
  }

  /** The channels after one call that may still change budget of them. */
  function Blend(current: Bytes, target: Bytes, budget: nat): (after: Bytes)
    requires |current| == |target|
    ensures |after| == |current|
  {
    if current == [] || budget == 0 then current
    else
      [Toward(current[0], target[0])]
      + Blend(current[1..], target[1..], if current[0] == target[0] then budget else budget - 1)
  }

  /** A call changes one channel even when it is asked for none. */
  function Budget(maxChanges: Byte): (b: nat)
    ensures b >= 1
  {
    if maxChanges == 0 then 1 else maxChanges
  }

  lemma {:induction false} BlendStep(current: Bytes, target: Bytes, i: nat, budget: nat)
    requires |current| == |target| && i < |current| && budget > 0
    ensures Blend(current[i..], target[i..], budget) ==
            [Toward(current[i], target[i])]
            + Blend(current[i + 1..], target[i + 1..],
                    if current[i] == target[i] then budget else budget - 1)
  {
    assert current[i..][1..] == current[i + 1..] && target[i..][1..] == target[i + 1..];
  }

  /** The first i channels are done and left more may change. */
  ghost predicate DoneUpTo(was: Bytes, target: Bytes, budget: nat, now: Bytes, i: nat, left: nat) {
    && |was| == |target| == |now| && i <= |was|
    && now[i..] == was[i..]
    && Blend(was, target, budget) == now[..i] + Blend(was[i..], target[i..], left)
  }

  lemma {:induction false} ChannelDone(was: Bytes, target: Bytes, budget: nat, now: Bytes, i: nat, left: nat)
    requires DoneUpTo(was, target, budget, now, i, left) && i < |was| && left > 0
    ensures now[i] == was[i]
    ensures DoneUpTo(was, target, budget, now[i := Toward(was[i], target[i])], i + 1,
                     if was[i] == target[i] then left else left - 1)
  {
    var next := now[i := Toward(was[i], target[i])];
    BlendStep(was, target, i, left);
    assert now[i] == now[i..][0] && was[i] == was[i..][0];
    assert next[i + 1..] == now[i..][1..] && was[i + 1..] == was[i..][1..];
    assert next[..i + 1] == now[..i] + [Toward(was[i], target[i])];
  }

  lemma {:induction false} AllDone(was: Bytes, target: Bytes, budget: nat, now: Bytes, i: nat, left: nat)
    requires DoneUpTo(was, target, budget, now, i, left) && (i == |was| || left == 0)
    ensures now == Blend(was, target, budget)
  {
    assert now == now[..i] + now[i..];
  }

  /** A channel that differs. */
  method MoveChannel(current: array<Byte>, i: nat, t: Byte) returns (changes: Byte)
    requires i < current.Length && current[i] != t
    modifies current
    ensures changes == 1
    ensures current[..] == old(current[..])[i := Toward(old(current[i]), t)]
  {
    changes := 0;
    if current[i] < t { current[i] := current[i] + 1; changes := changes + 1; }
    if current[i] > t {
      current[i] := current[i] - 1;
      changes := changes + 1;
      if current[i] > t { current[i] := current[i] - 1; }
    }
  }

  /** The body of the loop. */
  method NextChannel(current: array<Byte>, i: nat, t: Byte, ghost was: Bytes, ghost goal: Bytes, ghost budget: nat,
                     ghost left: nat) returns (changes: Byte)
    requires i < current.Length == |was| == |goal| && goal[i] == t && left > 0
    requires DoneUpTo(was, goal, budget, current[..], i, left)
    modifies current
    ensures changes == if old(current[i]) == t then 0 else 1
    ensures changes == 0 ==> current[..] == old(current[..])
    ensures DoneUpTo(was, goal, budget, current[..], i + 1, left - changes)
  {
    ghost var now := current[..];
    ChannelDone(was, goal, budget, now, i, left);
    changes := 0;
    if current[i] == t {
      assert now[i := t] == now;
    } else {
      changes := MoveChannel(current, i, t);
    }
  }

  /** Nothing is required of the two palettes, which may be the same object. */
  method NblendPaletteTowardPalette(current: array<Byte>, target: array<Byte>, maxChanges: Byte)
    requires current.Length == 48 && target.Length == 48
    modifies current
    ensures current[..] == Blend(old(current[..]), old(target[..]), Budget(maxChanges))
  {
    ghost var was, goal, budget := current[..], target[..], Budget(maxChanges);
    var changes: Byte := 0;
    for i := 0 to 48
      invariant changes <= i && changes < budget
      invariant target[..] == goal
      invariant DoneUpTo(was, goal, budget, current[..], i, budget - changes)
    {
      assert goal[i] == target[i];
      var change := NextChannel(current, i, target[i], was, goal, budget, budget - changes);
      assert change == 1 ==> current != target;
      if change == 0 { continue; }
      changes := changes + change;
      if changes >= maxChanges {
        AllDone(was, goal, budget, current[..], i + 1, 0);
        return;
      }
    }
    AllDone(was, goal, budget, current[..], 48, budget - changes);
  }

  // ---------------------------------------------------------------- what a call does

  /** No channel moves away from its goal or beyond it. */
  lemma {:induction false} NeverOvershoots(current: Bytes, target: Bytes, budget: nat, k: nat)
    requires |current| == |target| && k < |current|
    ensures var r := Blend(current, target, budget)[k];
            r == current[k] || r == Toward(current[k], target[k])
    decreases current
  {
    if budget > 0 && k > 0 {
      NeverOvershoots(current[1..], target[1..], if current[0] == target[0] then budget else budget - 1, k - 1);
    }
  }

  function Differing(a: Bytes, b: Bytes): (n: nat)
    requires |a| == |b|
  {
    if a == [] then 0 else (if a[0] == b[0] then 0 else 1) + Differing(a[1..], b[1..])
  }

  /** The calls that one channel needs: one for each unit up, one for every two units down. */
  function Steps(c: Byte, t: Byte): nat {
    if c <= t then t - c else (c - t + 1) / 2
  }

  function Work(current: Bytes, target: Bytes): (n: nat)
    requires |current| == |target|
  {
    if current == [] then 0 else Steps(current[0], target[0]) + Work(current[1..], target[1..])
  }

  function Gap(c: Byte, t: Byte): nat {
    if c <= t then t - c else c - t
  }

  function Distance(current: Bytes, target: Bytes): (n: nat)
    requires |current| == |target|
  {
    if current == [] then 0 else Gap(current[0], target[0]) + Distance(current[1..], target[1..])
  }

  function Min(a: nat, b: nat): nat {
    if a < b then a else b
  }

  lemma {:induction false} SameDiffersNowhere(a: Bytes)
    ensures Differing(a, a) == 0
  {
    if a != [] {
      SameDiffersNowhere(a[1..]);
    }
  }

  /** A call changes exactly as many channels as it may, and each of them does a unit of the remaining
      work; so the work is a perfect account of what is left. */
  lemma {:induction false} BlendDoesWork(current: Bytes, target: Bytes, budget: nat)
    requires |current| == |target|
    ensures var after, n := Blend(current, target, budget), Min(budget, Differing(current, target));
            && Differing(current, after) == n
            && Work(after, target) == Work(current, target) - n
            && Distance(current, target) - 2 * n <= Distance(after, target) <= Distance(current, target) - n
  {
    if current == [] || budget == 0 {
      SameDiffersNowhere(current);
    } else {
      var rest := if current[0] == target[0] then budget else budget - 1;
      BlendDoesWork(current[1..], target[1..], rest);
      var after := Blend(current, target, budget);
      assert after[0] == Toward(current[0], target[0]) && after[1..] == Blend(current[1..], target[1..], rest);
    }
  }

  /** Channel k after a call that may change budget channels. */
  lemma {:induction false} BlendAt(current: Bytes, target: Bytes, budget: nat, k: nat)
    requires |current| == |target| && k < |current|
    ensures Blend(current, target, budget)[k] ==
            if Differing(current[..k], target[..k]) < budget then Toward(current[k], target[k]) else current[k]
    decreases current
  {
    if budget > 0 && k > 0 {
      BlendAt(current[1..], target[1..], if current[0] == target[0] then budget else budget - 1, k - 1);
      assert current[..k][1..] == current[1..][..k - 1] && target[..k][1..] == target[1..][..k - 1];
    }
  }

  /** A call changes the first channels that differ, as many as maxChanges but one at least: those below their goal
      by one upwards, those above it by two downwards, or by one if only one is missing. */
  lemma {:induction false} CallChanges(current: Bytes, target: Bytes, maxChanges: Byte, k: nat)
    requires |current| == |target| && k < |current|
    ensures var after, limit := Blend(current, target, Budget(maxChanges)), if maxChanges == 0 then 1 else maxChanges;
            var c: int, t: int := current[k], target[k];
            && Differing(current, after) == Min(limit, Differing(current, target))
            && after[k] == if Differing(current[..k], target[..k]) >= limit then c
                           else if c < t then c + 1 else if c > t + 1 then c - 2 else t
  {
    BlendDoesWork(current, target, Budget(maxChanges));
    BlendAt(current, target, Budget(maxChanges), k);
  }

  lemma {:induction false} NoWorkIff(current: Bytes, target: Bytes)
    requires |current| == |target|
    ensures Work(current, target) == 0 <==> current == target
    ensures Differing(current, target) == 0 <==> current == target
    ensures Work(current, target) <= Distance(current, target)
  {
    if current != [] {
      NoWorkIff(current[1..], target[1..]);
      assert current == [current[0]] + current[1..] && target == [target[0]] + target[1..];
    }
  }

  /** Every call comes closer, unless there is nothing left to do. */
  lemma {:induction false} ComesCloser(current: Bytes, target: Bytes, maxChanges: Byte)
    requires |current| == |target|
    ensures var after := Blend(current, target, Budget(maxChanges));
            if current == target then after == current
            else Distance(after, target) < Distance(current, target)
  {
    BlendDoesWork(current, target, Budget(maxChanges));
    NoWorkIff(current, target);
    var after := Blend(current, target, Budget(maxChanges));
    if current == target {
      forall k | 0 <= k < |current| ensures after[k] == current[k] {
        NeverOvershoots(current, target, Budget(maxChanges), k);
      }
    }
  }

  // ---------------------------------------------------------------- repeated calls

  function Blends(current: Bytes, target: Bytes, budget: nat, calls: nat): (after: Bytes)
    requires |current| == |target|
    ensures |after| == |current|
    decreases calls
  {
    if calls == 0 then current else Blends(Blend(current, target, budget), target, budget, calls - 1)
  }

  /** However many changes a call may make, as many calls as there is work suffice, and less than the
      work divided by the budget is too little. */
  lemma {:induction false} FadeEnds(current: Bytes, target: Bytes, maxChanges: Byte, calls: nat)
    requires |current| == |target|
    ensures calls >= Work(current, target) ==> Blends(current, target, Budget(maxChanges), calls) == target
    ensures calls * Budget(maxChanges) < Work(current, target) ==>
              Blends(current, target, Budget(maxChanges), calls) != target
    decreases calls
  {
    var budget := Budget(maxChanges);
    NoWorkIff(current, target);
    if calls > 0 {
      var after := Blend(current, target, budget);
      BlendDoesWork(current, target, budget);
      FadeEnds(after, target, maxChanges, calls - 1);
      assert calls * budget == (calls - 1) * budget + budget;
    }
  }

  /** The total distance is therefore always enough, even for maxChanges = 0 ... */
  lemma {:induction false} FadeEndsWithinDistance(current: Bytes, target: Bytes, maxChanges: Byte)
    requires |current| == |target|
    ensures Blends(current, target, Budget(maxChanges), Distance(current, target)) == target
  {
    NoWorkIff(current, target);
    FadeEnds(current, target, maxChanges, Distance(current, target));
  }

  /** ... and calls that change one channel each end the fade after exactly the work. */
  lemma {:induction false} SlowFadeIsExact(current: Bytes, target: Bytes, maxChanges: Byte, calls: nat)
    requires |current| == |target| && maxChanges <= 1
    ensures Blends(current, target, Budget(maxChanges), calls) == target <==> calls >= Work(current, target)
  {
    var budget := Budget(maxChanges);
    assert budget == 1 && calls * budget == calls;
    FadeEnds(current, target, maxChanges, calls);
  }
}
