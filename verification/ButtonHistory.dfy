/** What a button reports, told from the history of its readings (libraries/GyverButton/GyverButton.cpp:137-189).

    A stretch is a run of polls that all see the button down.  Here presses, holds and clicks are told from
    the readings and the clock alone; the state of the button is proved to follow them. */
module ButtonHistory {
  import opened Button
  import opened Octets

  predicate DownAt(p: Setup, events: seq<Event>, k: nat)
    requires k < |events|
  {
    PollsAt(p, events, k) && ReadsPressed(Calls(p, events, k).p, events[k])
  }

  predicate UpAt(p: Setup, events: seq<Event>, k: nat)
    requires k < |events|
  {
    PollsAt(p, events, k) && !ReadsPressed(Calls(p, events, k).p, events[k])
  }

  /** The call that began the stretch which the n-th call continues; -1 if the last poll saw the button up. */
  function Stretch(p: Setup, events: seq<Event>, n: nat): (j: int)
    requires n <= |events|
    ensures -1 <= j < n
  {
    if n == 0 then -1
    else if UpAt(p, events, n - 1) then -1
    else if DownAt(p, events, n - 1) && Stretch(p, events, n - 1) == -1 then n - 1
    else Stretch(p, events, n - 1)
  }

  /** The debounce time has passed when a further poll sees the button down. */
  predicate PressDue(p: Setup, events: seq<Event>, k: nat)
    requires k < |events|
  {
    var j := Stretch(p, events, k);
    DownAt(p, events, k) && j >= 0 &&
    Since(events[k].c.debounced, events[j].c.start) >= Calls(p, events, k).p.debounce
  }

  /** In the stretch that the n-th call continues a press has been due. */
  predicate Pressed(p: Setup, events: seq<Event>, n: nat)
    requires n <= |events|
  {
    n > 0 && Stretch(p, events, n) >= 0 && (Pressed(p, events, n - 1) || PressDue(p, events, n - 1))
  }

  /** The hold timeout has passed when a poll sees the button down that is pressed, or becomes so. */
  predicate HoldDue(p: Setup, events: seq<Event>, k: nat)
    requires k < |events|
  {
    DownAt(p, events, k) && Pressed(p, events, k + 1) &&
    Since(events[k].c.held, events[Stretch(p, events, k + 1)].c.start) >= Calls(p, events, k).p.timeout
  }

  predicate Held(p: Setup, events: seq<Event>, n: nat)
    requires n <= |events|
  {
    n > 0 && Stretch(p, events, n) >= 0 && (Held(p, events, n - 1) || HoldDue(p, events, n - 1))
  }

  // ---------------------------------------------------------------- the button follows

  /** The contact and the timer are those of the history. */
  predicate Follows(p: Setup, events: seq<Event>, n: nat, s: State)
    requires n <= |events|
  {
    var j, pressed, held := Stretch(p, events, n), Pressed(p, events, n), Held(p, events, n);
    && s.contact.flag == pressed
    && s.contact.hold == s.contact.step == held
    && s.contact.oneClick == (pressed && !held)
    && (s.contact.debouncing ==> j >= 0) && (j >= 0 && !pressed ==> s.contact.debouncing)
    && (held ==> pressed)
    && (j >= 0 && !held ==> s.timer == events[j].c.start)
  }

  lemma {:induction false} PollFollows(p: Setup, events: seq<Event>, n: nat, s: State)
    requires n < |events| && Follows(p, events, n, s) && PollsAt(p, events, n)
    ensures var q, e := Calls(p, events, n).p, events[n];
            Follows(p, events, n + 1, Poll(Reads(s, ReadsPressed(q, e)), q, e.c))
  {
  }

  lemma {:induction false} RunFollows(p: Setup, events: seq<Event>, n: nat)
    requires n <= |events|
    ensures Follows(p, events, n, Calls(p, events, n).s)
  {
    if n > 0 {
      var r, e := Calls(p, events, n - 1), events[n - 1];
      RunFollows(p, events, n - 1);
      if PollsAt(p, events, n - 1) {
        PollFollows(p, events, n - 1, r.s);
      }
      ToldKeeps(Polled(r.s, r.p, e), r.p, e);
    }
  }

  // ---------------------------------------------------------------- what happens when

  predicate PressAt(p: Setup, events: seq<Event>, k: nat)
    requires k < |events|
  {
    PressDue(p, events, k) && !Pressed(p, events, k)
  }

  predicate HoldAt(p: Setup, events: seq<Event>, k: nat)
    requires k < |events|
  {
    HoldDue(p, events, k) && !Held(p, events, k)
  }

  predicate ReleaseAt(p: Setup, events: seq<Event>, k: nat)
    requires k < |events|
  {
    UpAt(p, events, k) && Pressed(p, events, k)
  }

  /** A release without a hold. */
  predicate ClickAt(p: Setup, events: seq<Event>, k: nat)
    requires k < |events|
  {
    ReleaseAt(p, events, k) && !Held(p, events, k)
  }

  /** The call raises the news of a batch of clicks. */
  predicate ReportAt(p: Setup, events: seq<Event>, k: nat)
    requires k < |events|
  {
    Calls(p, events, k + 1).done.reports > Calls(p, events, k).done.reports
  }

  /** A press is raised once in a stretch, by the first poll for which the debounce time has passed; a hold likewise;
      a release by the poll that ends a stretch with a press, and a click if there was no hold in it. */
  lemma {:induction false} HappensIff(p: Setup, events: seq<Event>, n: nat)
    requires n < |events|
    ensures var t, u := Calls(p, events, n).done, Calls(p, events, n + 1).done;
            && u.presses == t.presses + B(PressAt(p, events, n))
            && u.holds == t.holds + B(HoldAt(p, events, n))
            && u.releases == t.releases + B(ReleaseAt(p, events, n))
            && u.clicks == t.clicks + B(ClickAt(p, events, n))
  {
    if PollsAt(p, events, n) {
      RunFollows(p, events, n);
    }
  }

  // ---------------------------------------------------------------- batches of clicks

  /** The clicks since the last report or hold, the number of clicks that was reported last, which a hold takes
      back, and the number of clicks before the last hold. */
  datatype Batches = Batches(clicks: nat, last: nat, beforeHold: nat)

  function Next(b: Batches, click: bool, hold: bool, report: bool): Batches {
    var all := b.clicks + B(click);
    Batches(if hold || report then 0 else all,
            if hold then 0 else if report then all else b.last,
            if hold then all else b.beforeHold)
  }

  /** After the first n calls. */
  function BatchesAt(p: Setup, events: seq<Event>, n: nat): Batches
    requires n <= |events|
  {
    if n == 0 then Batches(0, 0, 0)
    else
      var k := n - 1;
      Next(BatchesAt(p, events, k), ClickAt(p, events, k), HoldAt(p, events, k), ReportAt(p, events, k))
  }

  /** The time from which the click timeout runs. */
  function TimerAt(p: Setup, events: seq<Event>, k: nat): Millis
    requires k < |events|
  {
    if ReleaseAt(p, events, k) then events[k].c.released
    else if DownAt(p, events, k) && Stretch(p, events, k) < 0 then events[k].c.start
    else Calls(p, events, k).s.timer
  }

  /** The state after the first three parts of a poll. */
  function BeforeReport(s: State, p: Setup, c: Clock): State {
    Hold(Release(Press(s, p, c), c), p, c)
  }

  lemma {:induction false} PartsFollow(p: Setup, events: seq<Event>, n: nat)
    requires n < |events| && PollsAt(p, events, n)
    ensures var r, c := Calls(p, events, n), events[n].c;
            var s := BeforeReport(Reads(r.s, ReadsPressed(r.p, events[n])), r.p, c);
            && ReportAt(p, events, n) == ReportFires(s, r.p, c)
            && (HoldAt(p, events, n) || s.timer == TimerAt(p, events, n))
            && s.count == if HoldAt(p, events, n) then Counters(0, 0, r.s.count.now)
                          else if ClickAt(p, events, n) then r.s.count.(now := Button.Next(r.s.count.now))
                          else r.s.count
  {
    RunFollows(p, events, n);
  }

  lemma {:induction false} QuietCall(p: Setup, events: seq<Event>, n: nat)
    requires n < |events| && !PollsAt(p, events, n)
    ensures !ReportAt(p, events, n) && !HoldAt(p, events, n) && !ClickAt(p, events, n)
    ensures Calls(p, events, n + 1).s.count == Calls(p, events, n).s.count
  {
  }

  /** The counters after a click, and after a hold or a report. */
  function Clicked(c: Counters, click: bool): Counters { if click then c.(now := Button.Next(c.now)) else c }

  function Counted(c: Counters, hold: bool, report: bool): Counters {
    if hold then Counters(0, 0, c.now) else if report then c.(now := 0, last := c.now) else c
  }

  lemma {:induction false} CallCounts(p: Setup, events: seq<Event>, n: nat)
    requires n < |events|
    ensures var r, c := Calls(p, events, n), events[n].c;
            var count := Clicked(r.s.count, ClickAt(p, events, n));
            && Calls(p, events, n + 1).s.count == Counted(count, HoldAt(p, events, n), ReportAt(p, events, n))
            && (ReportAt(p, events, n) <==>
                && PollsAt(p, events, n) && !HoldAt(p, events, n) && count.now != 0
                && Since(c.clicked, TimerAt(p, events, n)) >= r.p.clickTimeout)
  {
    var r, e := Calls(p, events, n), events[n];
    if PollsAt(p, events, n) {
      var s := BeforeReport(Reads(r.s, ReadsPressed(r.p, e)), r.p, e.c);
      PartsFollow(p, events, n);
      ToldKeeps(Report(s, r.p, e.c), r.p, e);
    } else {
      QuietCall(p, events, n);
    }
  }

  /** What a byte can tell of them. */
  function InBytes(b: Batches): Counters { Counters(b.clicks % 256, b.last % 256, b.beforeHold % 256) }

  lemma {:induction false} NextInBytes(b: Batches, click: bool, hold: bool, report: bool)
    requires !(hold && report)
    ensures Counted(Clicked(InBytes(b), click), hold, report) == InBytes(Next(b, click, hold, report))
    ensures Clicked(InBytes(b), click).now == (b.clicks + B(click)) % 256
  {
  }

  /** The counters are these numbers, as far as a byte can tell. */
  lemma {:induction false} RunCounts(p: Setup, events: seq<Event>, n: nat)
    requires n <= |events|
    ensures Calls(p, events, n).s.count == InBytes(BatchesAt(p, events, n))
  {
    if n > 0 {
      var k := n - 1;
      RunCounts(p, events, k);
      CallCounts(p, events, k);
      NextInBytes(BatchesAt(p, events, k), ClickAt(p, events, k), HoldAt(p, events, k), ReportAt(p, events, k));
    }
  }

  /** A poll reports a batch exactly when there is one that a byte can tell from none, it raises no hold, and the
      click timeout has passed. */
  lemma {:induction false} ReportIff(p: Setup, events: seq<Event>, n: nat)
    requires n < |events|
    ensures ReportAt(p, events, n) <==>
            && PollsAt(p, events, n) && !HoldAt(p, events, n)
            && (BatchesAt(p, events, n).clicks + B(ClickAt(p, events, n))) % 256 != 0
            && Since(events[n].c.clicked, TimerAt(p, events, n)) >= Calls(p, events, n).p.clickTimeout
  {
    RunCounts(p, events, n);
    CallCounts(p, events, n);
    NextInBytes(BatchesAt(p, events, n), ClickAt(p, events, n), false, false);
  }

  lemma {:induction false} CountAnswer(r: Run, e: Event, m: Byte)
    requires e.op == Op.IsCount(m)
    ensures Answers(Polled(r.s, r.p, e), r.p, e) <==>
            Polled(r.s, r.p, e).news.clicks && m == Call(r, e).s.count.last
  {
    ToldKeeps(Polled(r.s, r.p, e), r.p, e);
  }

  /** isSingle, isDouble and isTriple say yes for exactly that number of clicks, while the batch has not been told. */
  lemma {:induction false} CountIsTold(p: Setup, events: seq<Event>, n: nat, m: Byte)
    requires n < |events| && events[n].op == Op.IsCount(m)
    ensures var r, e := Calls(p, events, n), events[n];
            Answers(Polled(r.s, r.p, e), r.p, e) <==>
            Polled(r.s, r.p, e).news.clicks && m == BatchesAt(p, events, n + 1).last % 256
  {
    RunCounts(p, events, n + 1);
    CountAnswer(Calls(p, events, n), events[n], m);
  }

  // ---------------------------------------------------------------- steps of a hold

  /** The time from which the next step of a hold is counted when the k-th call asks: that of the hold or of the
      last step. */
  function StepFrom(p: Setup, events: seq<Event>, k: nat): Millis
    requires k < |events|
    decreases k, 1
  {
    if HoldAt(p, events, k) then events[k].c.holding else StepTimer(p, events, k)
  }

  function StepTimer(p: Setup, events: seq<Event>, n: nat): Millis
    requires n <= |events|
    decreases n, 0
  {
    if n == 0 then 0
    else if StepAt(p, events, n - 1) then events[n - 1].c.next
    else StepFrom(p, events, n - 1)
  }

  /** A step is due in a hold when the step timeout has passed, and is told when it is asked for. */
  predicate StepAt(p: Setup, events: seq<Event>, k: nat)
    requires k < |events|
    decreases k, 2
  {
    && events[k].op == Op.IsStep && Held(p, events, k + 1)
    && Since(events[k].c.stepped, StepFrom(p, events, k)) >= Calls(p, events, k).p.stepTimeout
  }

  lemma {:induction false} HoldTimer(p: Setup, events: seq<Event>, n: nat)
    requires n < |events|
    requires Held(p, events, n) ==> Calls(p, events, n).s.timer == StepTimer(p, events, n)
    ensures var r, e := Calls(p, events, n), events[n];
            var s := Polled(r.s, r.p, e);
            && s.contact.step == Held(p, events, n + 1)
            && (s.contact.step ==> s.timer == StepFrom(p, events, n))
  {
    RunFollows(p, events, n);
  }

  lemma {:induction false} RunSteps(p: Setup, events: seq<Event>, n: nat)
    requires n <= |events|
    ensures Held(p, events, n) ==> Calls(p, events, n).s.timer == StepTimer(p, events, n)
  {
    if n > 0 {
      RunSteps(p, events, n - 1);
      HoldTimer(p, events, n - 1);
    }
  }

  lemma {:induction false} StepIff(p: Setup, events: seq<Event>, n: nat)
    requires n < |events| && events[n].op == Op.IsStep
    ensures var r, e := Calls(p, events, n), events[n];
            Answers(Polled(r.s, r.p, e), r.p, e) <==> StepAt(p, events, n)
  {
    RunSteps(p, events, n);
    HoldTimer(p, events, n);
  }
}
