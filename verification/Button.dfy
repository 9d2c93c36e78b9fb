/** The button state machine GButton (libraries/GyverButton/GyverButton.cpp, GyverButton.h). */
module Button {
  import opened Octets

  /** now - before in 32 bits: the time that has passed, also across a wrap of the clock. */
  function Since(now: Millis, before: Millis): Millis {
    if now >= before then now - before else now - before + 0x1_0000_0000
  }

  /** The clock as one call reads it.  A call reads the clock at up to eight places, each of which may see
      another value; nothing is assumed about them. */
  datatype Clock = Clock(start: Millis, debounced: Millis, released: Millis, held: Millis, holding: Millis,
                         clicked: Millis, stepped: Millis, next: Millis)

  /** What the button is doing. */
  datatype Contact = Contact(pressed: bool, debouncing: bool, flag: bool, hold: bool, step: bool, oneClick: bool)

  /** What has happened and has not been asked for. */
  datatype News = News(press: bool, release: bool, click: bool, holded: bool, clicks: bool)

  datatype Setup = Setup(inverted: bool, kind: bool, auto: bool,
                         debounce: Word16, timeout: Word16, clickTimeout: Word16, stepTimeout: Word16)

  datatype Counters = Counters(now: Byte, last: Byte, lastHold: Byte)

  datatype State = State(contact: Contact, news: News, count: Counters, timer: Millis)

  // ---------------------------------------------------------------- one poll of the button

  function Reads(s: State, pressed: bool): State {
    s.(contact := s.contact.(pressed := pressed))
  }

  predicate PressFires(s: State, p: Setup, c: Clock) {
    s.contact.pressed && !s.contact.flag && s.contact.debouncing && Since(c.debounced, s.timer) >= p.debounce
  }

  function Press(s: State, p: Setup, c: Clock): State {
    if PressFires(s, p, c) then
      s.(contact := s.contact.(flag := true, oneClick := true), news := s.news.(press := true))
    else if s.contact.pressed && !s.contact.flag then
      if s.contact.debouncing then s else s.(contact := s.contact.(debouncing := true), timer := c.start)
    else s.(contact := s.contact.(debouncing := false))
  }

  predicate ReleaseFires(s: State) {
    !s.contact.pressed && s.contact.flag
  }

  function Next(n: Byte): Byte {
    if n == 255 then 0 else n + 1
  }

  function Release(s: State, c: Clock): State {
    if ReleaseFires(s) then
      State(s.contact.(flag := false, hold := false, step := false, oneClick := false),
            s.news.(release := true, click := s.news.click || s.contact.oneClick),
            if s.contact.hold then s.count else s.count.(now := Next(s.count.now)),
            c.released)
    else s
  }

  predicate HoldFires(s: State, p: Setup, c: Clock) {
    s.contact.flag && s.contact.pressed && Since(c.held, s.timer) >= p.timeout && !s.contact.hold
  }

  function Hold(s: State, p: Setup, c: Clock): State {
    if HoldFires(s, p, c) then
      State(s.contact.(hold := true, step := true, oneClick := false), s.news.(holded := true),
            Counters(0, 0, s.count.now), c.holding)
    else s
  }

  predicate ReportFires(s: State, p: Setup, c: Clock) {
    Since(c.clicked, s.timer) >= p.clickTimeout && s.count.now != 0
  }

  function Report(s: State, p: Setup, c: Clock): State {
    if ReportFires(s, p, c) then
      s.(news := s.news.(clicks := true), count := s.count.(now := 0, last := s.count.now))
    else s
  }

  /** A poll that has read the button. */
  function Poll(s: State, p: Setup, c: Clock): State {
    Report(Hold(Release(Press(s, p, c), c), p, c), p, c)
  }

  function PinPressed(p: Setup, pin: bool): bool {
    !pin != (p.inverted != p.kind)
  }

  /** A button that is open at rest is pressed when it draws the pin away from the level to which the pin is pulled,
      up for kind false; one that is closed at rest, when it lets go. */
  lemma {:induction false} PinReading(p: Setup, pin: bool)
    ensures !p.inverted ==> (PinPressed(p, pin) <==> pin == p.kind)
    ensures p.inverted ==> (PinPressed(p, pin) <==> pin != p.kind)
  {
  }

  // ---------------------------------------------------------------- the calls

  /** IsCount stands for isSingle, isDouble and isTriple (n = 1, 2, 3). */
  datatype Op =
    | Tick | TickWith(value: bool)
    | IsPress | IsRelease | IsClick | IsHolded | IsHold | GetState | IsCount(n: Byte) | HasClicks | IsStep
    | GetClicks | GetHoldClicks | Configure(setup: Setup)

  /** A call, the level of the pin and the clock while it is made. */
  datatype Event = Event(op: Op, pin: bool, c: Clock)

  predicate Polls(p: Setup, op: Op) {
    match op
    case Tick | TickWith(_) => true
    case GetClicks | Configure(_) => false
    case _ => p.auto
  }

  predicate ReadsPressed(p: Setup, e: Event) {
    if e.op.TickWith? then e.op.value != p.inverted else PinPressed(p, e.pin)
  }

  /** A reading that is given instead is that of a button, or its opposite for one that is closed at rest. */
  lemma {:induction false} GivenReading(p: Setup, e: Event)
    requires e.op.TickWith?
    ensures ReadsPressed(p, e) <==> if p.inverted then !e.op.value else e.op.value
  {
  }

  function Polled(s: State, p: Setup, e: Event): State {
    if Polls(p, e.op) then Poll(Reads(s, ReadsPressed(p, e)), p, e.c) else s
  }

  /** What a call answers, once it has polled. */
  predicate Answers(s: State, p: Setup, e: Event) {
    match e.op
    case IsPress => s.news.press
    case IsRelease => s.news.release
    case IsClick => s.news.click
    case IsHolded => s.news.holded
    case IsHold => s.contact.step
    case GetState => s.contact.pressed
    case IsCount(n) => s.news.clicks && s.count.last == n
    case HasClicks => s.news.clicks
    case IsStep => s.contact.step && Since(e.c.stepped, s.timer) >= p.stepTimeout
    case _ => false
  }

  /** Good news is told once; a step restarts the timer. */
  function Told(s: State, p: Setup, e: Event): State {
    if !Answers(s, p, e) then s
    else match e.op
      case IsPress => s.(news := s.news.(press := false))
      case IsRelease => s.(news := s.news.(release := false))
      case IsClick => s.(news := s.news.(click := false))
      case IsHolded => s.(news := s.news.(holded := false))
      case IsCount(_) => s.(news := s.news.(clicks := false))
      case HasClicks => s.(news := s.news.(clicks := false))
      case IsStep => s.(timer := e.c.next)
      case _ => s
  }

  class GButton {
    var contact: Contact
    var news: News
    var setup: Setup
    var mode: bool
    var count: Counters
    var timer: Millis

    ghost function View(): State
      reads this
    {
      State(contact, news, count, timer)
    }

    /** A button in static storage starts with all flags and counters zero. */
    constructor (kind: bool, direction: bool)
      ensures View() == Untouched() && setup == Setup(direction, kind, false, 60, 500, 300, 400) && !mode
    {
      contact := Contact(false, false, false, false, false, false);
      news := News(false, false, false, false, false);
      setup := Setup(direction, kind, false, 60, 500, 300, 400);
      mode := false;
      count := Counters(0, 0, 0);
      timer := 0;
    }

    /** The debounce (GyverButton.cpp:141-155). */
    method Pressing(c: Clock)
      modifies `contact, `news, `timer
      ensures View() == Press(old(View()), setup, c)
    {
      if contact.pressed && !contact.flag {
        if !contact.debouncing {
          contact := contact.(debouncing := true);
          timer := c.start;
        } else {
          if Since(c.debounced, timer) >= setup.debounce {
            contact := contact.(flag := true);
            news := news.(press := true);
            contact := contact.(oneClick := true);
          }
        }
      } else {
        contact := contact.(debouncing := false);
      }
    }

    /** Letting go (GyverButton.cpp:157-169). */
    method Releasing(c: Clock)
      modifies `contact, `count, `news, `timer
      ensures View() == Release(old(View()), c)
    {
      if !contact.pressed && contact.flag {
        contact := contact.(flag := false);
        if !contact.hold { count := count.(now := Next(count.now)); }
        contact := contact.(hold := false);
        news := news.(release := true);
        timer := c.released;
        contact := contact.(step := false);
        if contact.oneClick {
          contact := contact.(oneClick := false);
          news := news.(click := true);
        }
      }
    }

    /** Holding on (GyverButton.cpp:171-181). */
    method Holding(c: Clock)
      modifies `contact, `count, `news, `timer
      ensures View() == Hold(old(View()), setup, c)
    {
      if contact.flag && contact.pressed && Since(c.held, timer) >= setup.timeout && !contact.hold {
        contact := contact.(hold := true);
        count := count.(lastHold := count.now);
        count := count.(now := 0);
        count := count.(last := 0);
        news := news.(holded := true);
        contact := contact.(step := true);
        contact := contact.(oneClick := false);
        timer := c.holding;
      }
    }

    /** Closing a batch of clicks (GyverButton.cpp:183-188). */
    method Counting(c: Clock)
      modifies `count, `news
      ensures View() == Report(old(View()), setup, c)
    {
      if Since(c.clicked, timer) >= setup.clickTimeout && count.now != 0 {
        count := count.(last := count.now);
        count := count.(now := 0);
        news := news.(clicks := true);
      }
    }

    method Tick(pin: bool, c: Clock)
      modifies this
      ensures var read := if old(mode) then old(View()) else Reads(old(View()), PinPressed(setup, pin));
              View() == Poll(read, setup, c)
      ensures mode == old(mode) && setup == old(setup)
    {
      if !mode {
        contact := contact.(pressed := !pin != (setup.inverted != setup.kind));
      }
      Pressing(c);
      Releasing(c);
      Holding(c);
      Counting(c);
    }

    method TickWith(value: bool, c: Clock)
      modifies this
      ensures !mode && setup == old(setup)
      ensures View() == Polled(old(View()), setup, Event(Op.TickWith(value), false, c))
    {
      mode := true;
      contact := contact.(pressed := value != setup.inverted);
      Tick(false, c);
      mode := false;
    }

    method IsPress(pin: bool, c: Clock) returns (answer: bool)
      requires !mode
      modifies this
      ensures !mode && setup == old(setup)
      ensures var e := Event(Op.IsPress, pin, c);
              var s := Polled(old(View()), setup, e);
              answer == Answers(s, setup, e) && View() == Told(s, setup, e)
    {
      if setup.auto { Tick(pin, c); }
      answer := news.press;
      if news.press { news := news.(press := false); }
    }

    method IsRelease(pin: bool, c: Clock) returns (answer: bool)
      requires !mode
      modifies this
      ensures !mode && setup == old(setup)
      ensures var e := Event(Op.IsRelease, pin, c);
              var s := Polled(old(View()), setup, e);
              answer == Answers(s, setup, e) && View() == Told(s, setup, e)
    {
      if setup.auto { Tick(pin, c); }
      answer := news.release;
      if news.release { news := news.(release := false); }
    }

    method IsClick(pin: bool, c: Clock) returns (answer: bool)
      requires !mode
      modifies this
      ensures !mode && setup == old(setup)
      ensures var e := Event(Op.IsClick, pin, c);
              var s := Polled(old(View()), setup, e);
              answer == Answers(s, setup, e) && View() == Told(s, setup, e)
    {
      if setup.auto { Tick(pin, c); }
      answer := news.click;
      if news.click { news := news.(click := false); }
    }

    method IsHolded(pin: bool, c: Clock) returns (answer: bool)
      requires !mode
      modifies this
      ensures !mode && setup == old(setup)
      ensures var e := Event(Op.IsHolded, pin, c);
              var s := Polled(old(View()), setup, e);
              answer == Answers(s, setup, e) && View() == Told(s, setup, e)
    {
      if setup.auto { Tick(pin, c); }
      answer := news.holded;
      if news.holded { news := news.(holded := false); }
    }

    method IsHold(pin: bool, c: Clock) returns (answer: bool)
      requires !mode
      modifies this
      ensures !mode && setup == old(setup)
      ensures var e := Event(Op.IsHold, pin, c);
              var s := Polled(old(View()), setup, e);
              answer == Answers(s, setup, e) && View() == Told(s, setup, e)
    {
      if setup.auto { Tick(pin, c); }
      answer := contact.step;
    }

    method GetState(pin: bool, c: Clock) returns (answer: bool)
      requires !mode
      modifies this
      ensures !mode && setup == old(setup)
      ensures var e := Event(Op.GetState, pin, c);
              var s := Polled(old(View()), setup, e);
              answer == Answers(s, setup, e) && View() == Told(s, setup, e)
    {
      if setup.auto { Tick(pin, c); }
      answer := contact.pressed;
    }

    method HasClicks(pin: bool, c: Clock) returns (answer: bool)
      requires !mode
      modifies this
      ensures !mode && setup == old(setup)
      ensures var e := Event(Op.HasClicks, pin, c);
              var s := Polled(old(View()), setup, e);
              answer == Answers(s, setup, e) && View() == Told(s, setup, e)
    {
      if setup.auto { Tick(pin, c); }
      answer := news.clicks;
      if news.clicks { news := news.(clicks := false); }
    }

    method IsCount(n: Byte, pin: bool, c: Clock) returns (answer: bool)
      requires !mode
      modifies this
      ensures !mode && setup == old(setup)
      ensures var e := Event(Op.IsCount(n), pin, c);
              var s := Polled(old(View()), setup, e);
              answer == Answers(s, setup, e) && View() == Told(s, setup, e)
    {
      if setup.auto { Tick(pin, c); }
      answer := news.clicks && count.last == n;
      if answer { news := news.(clicks := false); }
    }

    method IsStep(pin: bool, c: Clock) returns (answer: bool)
      requires !mode
      modifies this
      ensures !mode && setup == old(setup)
      ensures var e := Event(Op.IsStep, pin, c);
              var s := Polled(old(View()), setup, e);
              answer == Answers(s, setup, e) && View() == Told(s, setup, e)
    {
      if setup.auto { Tick(pin, c); }
      answer := contact.step && Since(c.stepped, timer) >= setup.stepTimeout;
      if answer { timer := c.next; }
    }

    method GetClicks() returns (clicks: Byte)
      ensures clicks == View().count.last
    {
      clicks := count.last;
    }

    method GetHoldClicks(pin: bool, c: Clock) returns (clicks: Byte)
      requires !mode
      modifies this
      ensures !mode && setup == old(setup)
      ensures View() == Polled(old(View()), setup, Event(Op.GetHoldClicks, pin, c))
      ensures clicks == if View().contact.hold then View().count.lastHold else 0
    {
      if setup.auto { Tick(pin, c); }
      clicks := if contact.hold then count.lastHold else 0;
    }

    /** setDebounce, setTimeout, setType and the other setters change the settings and nothing else. */
    method Configure(newSetup: Setup)
      modifies `setup
      ensures setup == newSetup
    {
      setup := newSetup;
    }
  }

  // ---------------------------------------------------------------- runs

  function Untouched(): State {
    State(Contact(false, false, false, false, false, false), News(false, false, false, false, false),
          Counters(0, 0, 0), 0)
  }

  /** How often something has been raised or told so far; reported and heldClicks are sums of clicks. */
  datatype Tally = Tally(presses: nat, releases: nat, clicks: nat, counted: nat, wraps: nat, holds: nat,
                         reports: nat, reported: nat, heldClicks: nat)

  datatype NewsTally = NewsTally(presses: nat, releases: nat, clicks: nat, holds: nat, reports: nat)

  /** done is what has happened, told the news of it that has been told, and missed the news that was
      raised again before it was told. */
  datatype Run = Run(s: State, p: Setup, done: Tally, told: NewsTally, missed: NewsTally)

  function B(b: bool): nat {
    if b then 1 else 0
  }

  function TallyPress(t: Tally, s: State, p: Setup, c: Clock): Tally {
    t.(presses := t.presses + B(PressFires(s, p, c)))
  }

  function TallyRelease(t: Tally, s: State): Tally {
    if !ReleaseFires(s) then t
    else t.(releases := t.releases + 1, clicks := t.clicks + B(s.contact.oneClick),
            counted := t.counted + B(!s.contact.hold), wraps := t.wraps + B(!s.contact.hold && s.count.now == 255))
  }

  function TallyHold(t: Tally, s: State, p: Setup, c: Clock): Tally {
    if !HoldFires(s, p, c) then t else t.(holds := t.holds + 1, heldClicks := t.heldClicks + s.count.now)
  }

  function TallyReport(t: Tally, s: State, p: Setup, c: Clock): Tally {
    if !ReportFires(s, p, c) then t else t.(reports := t.reports + 1, reported := t.reported + s.count.now)
  }

  function TallyPoll(t: Tally, s: State, p: Setup, c: Clock): Tally {
    var s1 := Press(s, p, c);
    var s2 := Release(s1, c);
    var s3 := Hold(s2, p, c);
    TallyReport(TallyHold(TallyRelease(TallyPress(t, s, p, c), s1), s2, p, c), s3, p, c)
  }

  /** A poll raises news whose flag may still be up. */
  function TallyMissed(t: NewsTally, s: State, p: Setup, c: Clock): NewsTally {
    var s1 := Press(s, p, c);
    var s2 := Release(s1, c);
    var s3 := Hold(s2, p, c);
    MissedReport(MissedHold(MissedRelease(MissedPress(t, s, p, c), s1), s2, p, c), s3, p, c)
  }

  function MissedPress(t: NewsTally, s: State, p: Setup, c: Clock): NewsTally {
    t.(presses := t.presses + B(PressFires(s, p, c) && s.news.press))
  }

  function MissedRelease(t: NewsTally, s: State): NewsTally {
    if !ReleaseFires(s) then t
    else t.(releases := t.releases + B(s.news.release), clicks := t.clicks + B(s.contact.oneClick && s.news.click))
  }

  function MissedHold(t: NewsTally, s: State, p: Setup, c: Clock): NewsTally {
    t.(holds := t.holds + B(HoldFires(s, p, c) && s.news.holded))
  }

  function MissedReport(t: NewsTally, s: State, p: Setup, c: Clock): NewsTally {
    t.(reports := t.reports + B(ReportFires(s, p, c) && s.news.clicks))
  }

  function TallyTold(t: NewsTally, op: Op): NewsTally {
    match op
    case IsPress => t.(presses := t.presses + 1)
    case IsRelease => t.(releases := t.releases + 1)
    case IsClick => t.(clicks := t.clicks + 1)
    case IsHolded => t.(holds := t.holds + 1)
    case IsCount(_) => t.(reports := t.reports + 1)
    case HasClicks => t.(reports := t.reports + 1)
    case _ => t
  }

  function Call(r: Run, e: Event): Run {
    var s := Polled(r.s, r.p, e);
    Run(Told(s, r.p, e),
        if e.op.Configure? then e.op.setup else r.p,
        if Polls(r.p, e.op) then TallyPoll(r.done, Reads(r.s, ReadsPressed(r.p, e)), r.p, e.c) else r.done,
        if Answers(s, r.p, e) then TallyTold(r.told, e.op) else r.told,
        if Polls(r.p, e.op) then TallyMissed(r.missed, Reads(r.s, ReadsPressed(r.p, e)), r.p, e.c) else r.missed)
  }

  /** The first n calls on a new button. */
  function Calls(p: Setup, events: seq<Event>, n: nat): Run
    requires n <= |events|
  {
    if n == 0 then
      var none := NewsTally(0, 0, 0, 0, 0);
      Run(Untouched(), p, Tally(0, 0, 0, 0, 0, 0, 0, 0, 0), none, none)
    else Call(Calls(p, events, n - 1), events[n - 1])
  }

  // ---------------------------------------------------------------- conservation

  /** A button that is down is either still a possible click or a hold. */
  predicate Coherent(c: Contact) {
    && c.step == c.hold
    && c.flag == (c.oneClick || c.hold)
    && !(c.oneClick && c.hold)
  }

  predicate Conserved(s: State, t: Tally) {
    && Coherent(s.contact)
    && t.presses == t.releases + B(s.contact.flag)
    && t.presses == t.clicks + t.holds + B(s.contact.oneClick)
    && t.counted == t.clicks
    && t.clicks == t.reported + t.heldClicks + s.count.now + 256 * t.wraps
  }

  lemma {:induction false} PressConserves(t: Tally, s: State, p: Setup, c: Clock)
    requires Conserved(s, t)
    ensures Conserved(Press(s, p, c), TallyPress(t, s, p, c))
  {
  }

  lemma {:induction false} ReleaseConserves(t: Tally, s: State, c: Clock)
    requires Conserved(s, t)
    ensures Conserved(Release(s, c), TallyRelease(t, s))
  {
  }

  lemma {:induction false} HoldConserves(t: Tally, s: State, p: Setup, c: Clock)
    requires Conserved(s, t)
    ensures Conserved(Hold(s, p, c), TallyHold(t, s, p, c))
  {
  }

  lemma {:induction false} ReportConserves(t: Tally, s: State, p: Setup, c: Clock)
    requires Conserved(s, t)
    ensures Conserved(Report(s, p, c), TallyReport(t, s, p, c))
  {
  }

  lemma {:induction false} PollConserves(t: Tally, s: State, p: Setup, c: Clock)
    requires Conserved(s, t)
    ensures Conserved(Poll(s, p, c), TallyPoll(t, s, p, c))
  {
    var s1, t1 := Press(s, p, c), TallyPress(t, s, p, c);
    PressConserves(t, s, p, c);
    var s2, t2 := Release(s1, c), TallyRelease(t1, s1);
    ReleaseConserves(t1, s1, c);
    var s3, t3 := Hold(s2, p, c), TallyHold(t2, s2, p, c);
    HoldConserves(t2, s2, p, c);
    ReportConserves(t3, s3, p, c);
  }

  lemma {:induction false} ToldKeeps(s: State, p: Setup, e: Event)
    ensures Told(s, p, e).contact == s.contact && Told(s, p, e).count == s.count
    ensures Told(s, p, e).timer == s.timer || s.contact.step
  {
  }

  lemma {:induction false} CallConserves(r: Run, e: Event)
    requires Conserved(r.s, r.done)
    ensures Conserved(Call(r, e).s, Call(r, e).done)
  {
    var s := Reads(r.s, ReadsPressed(r.p, e));
    assert Conserved(s, r.done);
    PollConserves(r.done, s, r.p, e.c);
    ToldKeeps(Polled(r.s, r.p, e), r.p, e);
  }

  /** Whatever the calls, the readings of the pin and the clock: no press, release, click or hold is lost or
      made up, and clicks are lost from the batches only by the counter wrapping at 256. */
  lemma {:induction false} RunConserves(p: Setup, events: seq<Event>, n: nat)
    requires n <= |events|
    ensures var r := Calls(p, events, n); Conserved(r.s, r.done)
  {
    if n > 0 {
      RunConserves(p, events, n - 1);
      CallConserves(Calls(p, events, n - 1), events[n - 1]);
    }
  }

  // ---------------------------------------------------------------- news is told once

  /** All that has happened has been told, or is still to be told, or was missed. */
  predicate ToldOnce(s: State, done: Tally, told: NewsTally, missed: NewsTally) {
    && told.presses + B(s.news.press) + missed.presses == done.presses
    && told.releases + B(s.news.release) + missed.releases == done.releases
    && told.clicks + B(s.news.click) + missed.clicks == done.clicks
    && told.holds + B(s.news.holded) + missed.holds == done.holds
    && told.reports + B(s.news.clicks) + missed.reports == done.reports
  }

  lemma {:induction false} PressToldOnce(done: Tally, told: NewsTally, missed: NewsTally, s: State, p: Setup, c: Clock)
    requires ToldOnce(s, done, told, missed)
    ensures ToldOnce(Press(s, p, c), TallyPress(done, s, p, c), told, MissedPress(missed, s, p, c))
  {
  }

  lemma {:induction false} ReleaseToldOnce(done: Tally, told: NewsTally, missed: NewsTally, s: State, c: Clock)
    requires ToldOnce(s, done, told, missed)
    ensures ToldOnce(Release(s, c), TallyRelease(done, s), told, MissedRelease(missed, s))
  {
  }

  lemma {:induction false} HoldToldOnce(done: Tally, told: NewsTally, missed: NewsTally, s: State, p: Setup, c: Clock)
    requires ToldOnce(s, done, told, missed)
    ensures ToldOnce(Hold(s, p, c), TallyHold(done, s, p, c), told, MissedHold(missed, s, p, c))
  {
  }

  lemma {:induction false} ReportToldOnce(done: Tally, told: NewsTally, missed: NewsTally, s: State, p: Setup, c: Clock)
    requires ToldOnce(s, done, told, missed)
    ensures ToldOnce(Report(s, p, c), TallyReport(done, s, p, c), told, MissedReport(missed, s, p, c))
  {
  }

  lemma {:induction false} PollToldOnce(done: Tally, told: NewsTally, missed: NewsTally, s: State, p: Setup, c: Clock)
    requires ToldOnce(s, done, told, missed)
    ensures ToldOnce(Poll(s, p, c), TallyPoll(done, s, p, c), told, TallyMissed(missed, s, p, c))
  {
    PressToldOnce(done, told, missed, s, p, c);
    var s1, t1, m1 := Press(s, p, c), TallyPress(done, s, p, c), MissedPress(missed, s, p, c);
    ReleaseToldOnce(t1, told, m1, s1, c);
    var s2, t2, m2 := Release(s1, c), TallyRelease(t1, s1), MissedRelease(m1, s1);
    HoldToldOnce(t2, told, m2, s2, p, c);
    var s3, t3, m3 := Hold(s2, p, c), TallyHold(t2, s2, p, c), MissedHold(m2, s2, p, c);
    ReportToldOnce(t3, told, m3, s3, p, c);
  }

  lemma {:induction false} CallToldOnce(r: Run, e: Event)
    requires ToldOnce(r.s, r.done, r.told, r.missed)
    ensures var after := Call(r, e); ToldOnce(after.s, after.done, after.told, after.missed)
  {
    var s, after := Reads(r.s, ReadsPressed(r.p, e)), Polled(r.s, r.p, e);
    assert ToldOnce(s, r.done, r.told, r.missed);
    PollToldOnce(r.done, r.told, r.missed, s, r.p, e.c);
    TellingIsCounted(after, r.p, e, Call(r, e).done, r.told, Call(r, e).missed);
  }

  lemma {:induction false} TellingIsCounted(s: State, p: Setup, e: Event, done: Tally, told: NewsTally,
                                            missed: NewsTally)
    requires ToldOnce(s, done, told, missed)
    ensures ToldOnce(Told(s, p, e), done, if Answers(s, p, e) then TallyTold(told, e.op) else told, missed)
  {
    if Answers(s, p, e) {
      if e.op.IsPress? {
        assert Told(s, p, e) == s.(news := s.news.(press := false));
      } else if e.op.IsRelease? {
        assert Told(s, p, e) == s.(news := s.news.(release := false));
      } else if e.op.IsClick? {
        assert Told(s, p, e) == s.(news := s.news.(click := false));
      } else if e.op.IsHolded? {
        assert Told(s, p, e) == s.(news := s.news.(holded := false));
      } else if e.op.IsCount? || e.op.HasClicks? {
        assert Told(s, p, e) == s.(news := s.news.(clicks := false));
      } else {
        assert Told(s, p, e).news == s.news && TallyTold(told, e.op) == told;
      }
    }
  }

  /** The queries say yes exactly as often as the thing happened, but for what is still to be told and for
      what happened again before it was told. */
  lemma {:induction false} RunToldOnce(p: Setup, events: seq<Event>, n: nat)
    requires n <= |events|
    ensures var r := Calls(p, events, n); ToldOnce(r.s, r.done, r.told, r.missed)
  {
    if n > 0 {
      RunToldOnce(p, events, n - 1);
      CallToldOnce(Calls(p, events, n - 1), events[n - 1]);
    }
  }

  // ---------------------------------------------------------------- debouncing

  predicate PollsAt(p: Setup, events: seq<Event>, k: nat)
    requires k < |events|
  {
    Polls(Calls(p, events, k).p, events[k].op)
  }

  /** The k-th call does not see the button up. */
  predicate NotUpAt(p: Setup, events: seq<Event>, k: nat)
    requires k < |events|
  {
    PollsAt(p, events, k) ==> ReadsPressed(Calls(p, events, k).p, events[k])
  }

  /** From call j, which saw the button down, up to call n no call saw it up. */
  predicate DownFrom(p: Setup, events: seq<Event>, j: nat, n: nat)
    requires n <= |events|
  {
    j < n && PollsAt(p, events, j) && forall k :: j <= k < n ==> NotUpAt(p, events, k)
  }

  /** The timer still shows when the button went down. */
  predicate Timing(c: Contact) {
    if c.flag then !c.hold else c.debouncing
  }

  /** The button has been seen down, and never up, since the timer was started. */
  ghost predicate DownSinceTimer(p: Setup, events: seq<Event>, n: nat, timer: Millis)
    requires n <= |events|
  {
    exists j :: 0 <= j < n && DownFrom(p, events, j, n) && events[j].c.start == timer
  }

  lemma {:induction false} PollTiming(s: State, p: Setup, c: Clock)
    requires Coherent(s.contact) && Timing(Poll(s, p, c).contact)
    ensures s.contact.pressed
    ensures if Timing(s.contact) then Poll(s, p, c).timer == s.timer else Poll(s, p, c).timer == c.start
  {
    var s1 := Press(s, p, c);
    var s2 := Release(s1, c);
    assert ReleaseFires(s1) ==> !Timing(s2.contact);
  }

  lemma {:induction false} DownThrough(p: Setup, events: seq<Event>, n: nat, timer: Millis)
    requires n < |events| && NotUpAt(p, events, n) && DownSinceTimer(p, events, n, timer)
    ensures exists j :: 0 <= j < n && DownFrom(p, events, j, n + 1) && events[j].c.start == timer
  {
    var j :| 0 <= j < n && DownFrom(p, events, j, n) && events[j].c.start == timer;
    forall k | j <= k < n + 1 ensures NotUpAt(p, events, k) {
      if k == n { assert NotUpAt(p, events, n); }
    }
    assert DownFrom(p, events, j, n + 1);
  }

  lemma {:induction false} CallTiming(r: Run, e: Event)
    requires Coherent(r.s.contact) && Timing(Call(r, e).s.contact)
    ensures Polls(r.p, e.op) ==> ReadsPressed(r.p, e)
    ensures if Timing(r.s.contact) then Call(r, e).s.timer == r.s.timer
            else Polls(r.p, e.op) && Call(r, e).s.timer == e.c.start
  {
    var s := Reads(r.s, ReadsPressed(r.p, e));
    ToldKeeps(Polled(r.s, r.p, e), r.p, e);
    if Polls(r.p, e.op) {
      assert Call(r, e).s.contact == Poll(s, r.p, e.c).contact;
      PollTiming(s, r.p, e.c);
      PollCoherent(s, r.p, e.c);
    }
  }

  lemma {:induction false} PollCoherent(s: State, p: Setup, c: Clock)
    requires Coherent(s.contact)
    ensures Coherent(Poll(s, p, c).contact)
  {
    var s1 := Press(s, p, c);
    assert Coherent(s1.contact);
    assert Coherent(Release(s1, c).contact);
  }

  lemma {:induction false} TimerShowsDown(p: Setup, events: seq<Event>, n: nat)
    requires n <= |events| && Timing(Calls(p, events, n).s.contact)
    ensures DownSinceTimer(p, events, n, Calls(p, events, n).s.timer)
  {
    if n > 0 {
      var r, e := Calls(p, events, n - 1), events[n - 1];
      RunConserves(p, events, n - 1);
      CallTiming(r, e);
      assert NotUpAt(p, events, n - 1);
      if Timing(r.s.contact) {
        TimerShowsDown(p, events, n - 1);
        DownThrough(p, events, n - 1, r.s.timer);
      } else {
        assert DownFrom(p, events, n - 1, n);
      }
    }
  }

  /** A press is raised only when every poll, from one that is at least the debounce time ago, has seen the
      button down. */
  lemma {:induction false} PressIsDebounced(p: Setup, events: seq<Event>, n: nat)
    requires n < |events| && PollsAt(p, events, n)
    requires var r := Calls(p, events, n); PressFires(Reads(r.s, ReadsPressed(r.p, events[n])), r.p, events[n].c)
    ensures exists j :: 0 <= j < n && DownFrom(p, events, j, n + 1)
                        && Since(events[n].c.debounced, events[j].c.start) >= Calls(p, events, n).p.debounce
  {
    TimerShowsDown(p, events, n);
    assert NotUpAt(p, events, n);
    DownThrough(p, events, n, Calls(p, events, n).s.timer);
  }

  lemma {:induction false} HoldNeedsTiming(s: State, p: Setup, c: Clock)
    requires Coherent(s.contact) && HoldFires(Release(Press(s, p, c), c), p, c)
    ensures s.contact.pressed && Timing(s.contact) && Since(c.held, s.timer) >= p.timeout
  {
  }

  /** A hold is raised only when the button has been down, since before the press, for the hold timeout. */
  lemma {:induction false} HoldIsTimed(p: Setup, events: seq<Event>, n: nat)
    requires n < |events| && PollsAt(p, events, n)
    requires var r, c := Calls(p, events, n), events[n].c;
             HoldFires(Release(Press(Reads(r.s, ReadsPressed(r.p, events[n])), r.p, c), c), r.p, c)
    ensures exists j :: 0 <= j < n && DownFrom(p, events, j, n + 1)
                        && Since(events[n].c.held, events[j].c.start) >= Calls(p, events, n).p.timeout
  {
    var r := Calls(p, events, n);
    RunConserves(p, events, n);
    HoldNeedsTiming(Reads(r.s, ReadsPressed(r.p, events[n])), r.p, events[n].c);
    TimerShowsDown(p, events, n);
    assert NotUpAt(p, events, n);
    DownThrough(p, events, n, r.s.timer);
  }
}
