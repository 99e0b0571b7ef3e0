/** When the node's announces keep to the channel budget.

    `core/src/node/announce.rs` promises that nothing bypasses it: from the end of an announce,
    fifty times its airtime of quiet before the next one starts. But the budget is spent when
    an announce is reported sent, and the schedule may hand out another while the first still
    waits in the queue. So over a run the promise holds exactly as long as no two are
    outstanding. */
module AnnounceBudget {
  import opened Bytes
  import opened Results
  import opened Announce
  import opened NodeQueues

  /** An announce that went: given to the radio at `start`, reported gone at `end`, and the
      quiet that bought. */
  datatype Went = Went(start: nat, end: nat, gap: nat)

  /** `Sending` as the node drives it, with the packet the radio has now and since when, the
      announces that went, and the clock. */
  datatype Driver = Driver(sending: SendingState, onAir: Option<Outgoing>, since: nat, log: seq<Went>, clock: nat)

  const BOOT := Driver(STOPPED, None, 0, [], 0)

  /** What the node does, at `now`. `Tick` takes the announce that is due and queues the
      packet `built` for it; `Done` says what became of the packet on the air. */
  datatype Event =
    | Follow(now: nat, running: bool)
    | Ask(now: nat, kind: Kind)
    | Tick(now: nat, built: Option<seq<Byte>>)
    | Engine(now: nat, packet: seq<Byte>)
    | GiveOut(now: nat, nobodyOnTheLine: bool)
    | Done(now: nat, went: Option<nat>)

  function TickStep(s: SendingState, now: nat, built: Option<seq<Byte>>): SendingState {
    var (next, kind) := DueStep(s, now);
    if kind.Some? && built.Some? then PushStep(next, built.value, kind) else next
  }

  function Reported(out: Outgoing, went: Option<nat>, since: nat, now: nat): seq<Went> {
    if out.kind.Some? && went.Some? then [Went(since, now, GapMs(went.value))] else []
  }

  function Apply(d: Driver, e: Event): Driver {
    var later := d.(clock := e.now);
    match e
    case Follow(now, running) => later.(sending := FollowStep(d.sending, running, now).0)
    case Ask(now, kind) => later.(sending := WantStep(d.sending, kind))
    case Tick(now, built) => later.(sending := TickStep(d.sending, now, built))
    case Engine(now, packet) => later.(sending := PushStep(d.sending, packet, None))
    case GiveOut(now, nobody) =>
      if d.onAir.Some? then later
      else later.(sending := NextStep(d.sending, nobody).0, onAir := NextStep(d.sending, nobody).1, since := now)
    case Done(now, went) =>
      if d.onAir.None? then later
      else later.(sending := SentStep(d.sending, d.onAir.value.kind, went, now), onAir := None,
                  log := d.log + Reported(d.onAir.value, went, d.since, now))
  }

  function Run(d: Driver, events: seq<Event>): Driver
    decreases |events|
  {
    if events == [] then d else Apply(Run(d, events[..|events| - 1]), events[|events| - 1])
  }

  ghost predicate ClockRuns(from: nat, events: seq<Event>) {
    && (forall i | 0 <= i < |events| :: from <= events[i].now)
    && (forall i, j | 0 <= i < j < |events| :: events[i].now <= events[j].now)
  }

  /** Every announce ended, and its quiet was over, before any later one started. */
  ghost predicate Spaced(log: seq<Went>) {
    && (forall i | 0 <= i < |log| :: log[i].start <= log[i].end)
    && (forall i, j | 0 <= i < j < |log| :: log[i].end + log[i].gap <= log[j].start)
  }

  function One(out: Outgoing): nat { if out.kind.Some? then 1 else 0 }

  function Announces(queue: seq<Outgoing>): nat { if queue == [] then 0 else One(queue[0]) + Announces(queue[1..]) }

  function OnAir(d: Driver): nat { if d.onAir.Some? then One(d.onAir.value) else 0 }

  /** Announces handed out and not yet reported or dropped. */
  function Outstanding(d: Driver): nat { Announces(d.sending.queue) + OnAir(d) }

  lemma {:induction false} AnnouncesAppend(queue: seq<Outgoing>, out: Outgoing)
    ensures Announces(queue + [out]) == Announces(queue) + One(out)
  {
    if queue == [] {
      assert [out][1..] == [];
    } else {
      assert (queue + [out])[1..] == queue[1..] + [out];
      AnnouncesAppend(queue[1..], out);
    }
  }

  lemma PushedAnnounces(queue: seq<Outgoing>, out: Outgoing)
    ensures Announces(Pushed(queue, out, QUEUE_CAPACITY)) <= Announces(queue) + One(out)
  {
    AnnouncesAppend(if |queue| == QUEUE_CAPACITY then queue[1..] else queue, out);
  }

  /** When the last announce of the log leaves room for the next. */
  function QuietUntil(log: seq<Went>): nat {
    if log == [] then 0 else log[|log| - 1].end + log[|log| - 1].gap
  }

  function LastQuiet(log: seq<Went>): Option<Quiet> {
    if log == [] then None else Some(Quiet(log[|log| - 1].end, log[|log| - 1].gap))
  }

  /** The log is spaced, the schedule knows its last entry, and the only announce out, if
      there is one, was handed out with the quiet over. */
  ghost predicate Kept(d: Driver) {
    && Spaced(d.log)
    && d.sending.schedule.last == LastQuiet(d.log)
    && (d.onAir.Some? ==> d.since <= d.clock)
    && (OnAir(d) == 1 ==> QuietUntil(d.log) <= d.since)
    && (Outstanding(d) == 1 ==> QuietUntil(d.log) <= d.clock)
  }

  lemma QuietIsAllowed(s: ScheduleState, log: seq<Went>)
    requires s.last == LastQuiet(log)
    ensures AllowedFromOf(s) == QuietUntil(log)
  {
  }

  lemma SpacedExtends(log: seq<Went>, next: Went)
    requires Spaced(log) && QuietUntil(log) <= next.start <= next.end
    ensures Spaced(log + [next])
  {
    var more := log + [next];
    forall i | 0 <= i < |log| ensures more[i].end + more[i].gap <= next.start {
      assert i < |log| - 1 ==> log[i].end + log[i].gap <= log[|log| - 1].start;
    }
  }

  /** What a tick queues it queues with the quiet over. */
  lemma TickWaitsForTheQuiet(s: SendingState, now: nat, built: Option<seq<Byte>>)
    ensures var next := TickStep(s, now, built);
            && next.schedule.last == s.schedule.last
            && (next.queue == s.queue || AllowedFromOf(s.schedule) <= now)
            && (next.queue != s.queue ==> DueStep(s, now).1.Some? && built.Some?)
            && Announces(next.queue) <= Announces(s.queue) + 1
  {
    hide Announces, Pushed;
    if DueStep(s, now).1.Some? && built.Some? {
      PushedAnnounces(s.queue, Outgoing(built.value, DueStep(s, now).1));
    }
  }

  lemma OneStepKeeps(d: Driver, e: Event)
    requires Kept(d) && d.clock <= e.now && Outstanding(d) <= 1 && Outstanding(Apply(d, e)) <= 1
    ensures Kept(Apply(d, e))
  {
    hide TickStep, Spaced, Pushed, QuietUntil, LastQuiet, AllowedFromOf;
    match e
    case Tick(now, built) =>
      TickWaitsForTheQuiet(d.sending, now, built);
      QuietIsAllowed(d.sending.schedule, d.log);
    case Engine(now, packet) => PushedAnnounces(d.sending.queue, Outgoing(packet, None));
    case Done(now, went) => DoneKeeps(d, now, went);
    case _ =>
  }

  lemma DoneKeeps(d: Driver, now: nat, went: Option<nat>)
    requires Kept(d) && d.clock <= now && Outstanding(d) <= 1
    ensures Kept(Apply(d, Done(now, went)))
  {
    hide Spaced, Announces;
    assert d.log + [] == d.log;
    if d.onAir.Some? && Reported(d.onAir.value, went, d.since, now) != [] {
      SpacedExtends(d.log, Went(d.since, now, GapMs(went.value)));
    }
  }

  /** The guard a caller could apply: an announce is taken from the schedule only when none
      is outstanding. */
  ghost predicate OneAtATime(d: Driver, e: Event) {
    e.Tick? && e.built.Some? && DueStep(d.sending, e.now).1.Some? ==> Outstanding(d) == 0
  }

  lemma GuardKeepsOne(d: Driver, e: Event)
    requires Outstanding(d) <= 1 && OneAtATime(d, e)
    ensures Outstanding(Apply(d, e)) <= 1
  {
    hide TickStep, Pushed;
    match e
    case Tick(now, built) => TickWaitsForTheQuiet(d.sending, now, built);
    case Engine(now, packet) => PushedAnnounces(d.sending.queue, Outgoing(packet, None));
    case _ =>
  }

  lemma {:induction false} GuardedRun(events: seq<Event>)
    requires ClockRuns(0, events)
    requires forall n | 0 <= n < |events| :: OneAtATime(Run(BOOT, events[..n]), events[n])
    ensures Kept(Run(BOOT, events)) && Outstanding(Run(BOOT, events)) <= 1
    decreases |events|
  {
    hide Kept, Outstanding, OneAtATime, Apply;
    if events == [] {
      BootIsKept();
    } else {
      var most, last := events[..|events| - 1], events[|events| - 1];
      assert forall n | 0 <= n < |most| :: most[..n] == events[..n];
      GuardedRun(most);
      ClockIsTheLastEvents(most);
      GuardKeepsOne(Run(BOOT, most), last);
      OneStepKeeps(Run(BOOT, most), last);
    }
  }

  lemma BootIsKept()
    ensures Kept(BOOT) && Outstanding(BOOT) == 0
  {
  }

  /** Over any run that takes announces one at a time, whatever asks for them, however often
      the node stops and starts, and whatever fails to go: every announce that went, and the
      one the radio has now, started with the quiet of all before it over. */
  lemma {:induction false} TheBudgetHolds(events: seq<Event>)
    requires ClockRuns(0, events)
    requires forall n | 0 <= n < |events| :: OneAtATime(Run(BOOT, events[..n]), events[n])
    ensures var d := Run(BOOT, events);
            && Spaced(d.log)
            && (d.onAir.Some? && d.onAir.value.kind.Some? ==>
                  forall i | 0 <= i < |d.log| :: d.log[i].end + d.log[i].gap <= d.since)
  {
    GuardedRun(events);
    hide Run, Outstanding;
    var d := Run(BOOT, events);
    if OnAir(d) == 1 {
      QuietOfAll(d.log, d.since);
    }
  }

  lemma QuietOfAll(log: seq<Went>, start: nat)
    requires Spaced(log) && QuietUntil(log) <= start
    ensures forall i | 0 <= i < |log| :: log[i].end + log[i].gap <= start
  {
    SpacedExtends(log, Went(start, start, 0));
    var more := log + [Went(start, start, 0)];
    assert more[|log|].start == start && forall i | 0 <= i < |log| :: more[i] == log[i];
  }

  // ------------------------------------------------------------ and not otherwise

  /** Twenty milliseconds on the air: a second of quiet. */
  const AIRTIME_US := 20_000
  const AIRTIME_MS := 20

  /** Everything waiting goes, one packet after the other, each taking its twenty
      milliseconds. */
  function Flush(now: nat, n: nat): seq<Event>
    decreases n
  {
    [Done(now + AIRTIME_MS, Some(AIRTIME_US))]
    + if n == 0 then [] else [GiveOut(now + AIRTIME_MS, true)] + Flush(now + AIRTIME_MS, n - 1)
  }

  lemma {:induction false} FlushKeepsTime(now: nat, n: nat)
    ensures ClockRuns(now, Flush(now, n))
    decreases n
  {
    hide ClockRuns;
    if n == 0 {
      OneEvent(now, Done(now + AIRTIME_MS, Some(AIRTIME_US)));
      assert Flush(now, 0) == [Done(now + AIRTIME_MS, Some(AIRTIME_US))];
    } else {
      FlushKeepsTime(now + AIRTIME_MS, n - 1);
      var rest := Flush(now + AIRTIME_MS, n - 1);
      LaterEvents(now + AIRTIME_MS, GiveOut(now + AIRTIME_MS, true), rest);
      LaterEvents(now, Done(now + AIRTIME_MS, Some(AIRTIME_US)), [GiveOut(now + AIRTIME_MS, true)] + rest);
      assert Flush(now, n)
          == [Done(now + AIRTIME_MS, Some(AIRTIME_US))] + ([GiveOut(now + AIRTIME_MS, true)] + rest);
    }
  }

  lemma OneEvent(now: nat, e: Event)
    requires now <= e.now
    ensures ClockRuns(now, [e])
  {
  }

  lemma LaterEvents(now: nat, e: Event, rest: seq<Event>)
    requires now <= e.now && ClockRuns(e.now, rest)
    ensures ClockRuns(now, [e] + rest)
  {
  }

  lemma ClocksJoin(from: nat, first: seq<Event>, mid: nat, second: seq<Event>)
    requires ClockRuns(from, first) && ClockRuns(mid, second) && from <= mid
    requires first != [] ==> first[|first| - 1].now <= mid
    ensures ClockRuns(from, first + second)
  {
    var all := first + second;
    forall i | 0 <= i < |all| ensures from <= all[i].now && (i < |first| ==> all[i].now <= mid) {
    }
    forall i, j | 0 <= i < j < |all| ensures all[i].now <= all[j].now {
    }
  }

  lemma {:induction false} RunSplits(d: Driver, first: seq<Event>, second: seq<Event>)
    ensures Run(d, first + second) == Run(Run(d, first), second)
    decreases |second|
  {
    hide Apply;
    if second == [] {
      assert first + second == first;
    } else {
      var most := second[..|second| - 1];
      RunSplits(d, first, most);
      assert (first + second)[..|first + second| - 1] == first + most;
    }
  }

  lemma RunOneMore(d: Driver, events: seq<Event>, e: Event)
    ensures Run(d, events + [e]) == Apply(Run(d, events), e)
  {
    hide Apply;
    assert (events + [e])[..|events|] == events;
  }

  lemma RunOne(d: Driver, e: Event)
    ensures Run(d, [e]) == Apply(d, e)
  {
    hide Apply;
    assert [e][..0] == [];
  }

  /** What a flush adds to the log, the radio having `out` since `start`. */
  function Flushed(out: Option<Outgoing>, start: nat, queue: seq<Outgoing>, now: nat): seq<Went>
    decreases |queue|
  {
    (if out.Some? && out.value.kind.Some? then [Went(start, now + AIRTIME_MS, 1_000)] else [])
    + if queue == [] then [] else Flushed(Some(queue[0]), now + AIRTIME_MS, queue[1..], now + AIRTIME_MS)
  }

  /** One entry for each announce, each started before the queue could be empty. */
  lemma {:induction false} FlushedIs(out: Option<Outgoing>, start: nat, queue: seq<Outgoing>, now: nat)
    requires start <= now
    ensures var log := Flushed(out, start, queue, now);
            && |log| == Announces(queue) + (if out.Some? then One(out.value) else 0)
            && (forall i | 0 <= i < |log| ::
                  log[i].gap == 1_000 && now + AIRTIME_MS <= log[i].end
                  && log[i].start <= now + AIRTIME_MS * |queue| && log[i].start <= log[i].end)
            && (|log| > 0 && out.Some? && out.value.kind.Some? ==> log[0].start == start)
            && (|log| > 0 && !(out.Some? && out.value.kind.Some?) ==> now <= log[0].start)
    decreases |queue|
  {
    hide Flushed, Announces;
    FlushedMore(out, start, queue, now);
    AnnouncesMore(queue);
    if queue != [] {
      FlushedIs(Some(queue[0]), now + AIRTIME_MS, queue[1..], now + AIRTIME_MS);
    }
  }

  lemma AnnouncesMore(queue: seq<Outgoing>)
    ensures Announces(queue) == if queue == [] then 0 else One(queue[0]) + Announces(queue[1..])
  {
  }

  lemma ReportSends(d: Driver)
    ensures var d1 := Apply(d, Done(d.clock + AIRTIME_MS, Some(AIRTIME_US)));
            && d1.log == d.log + (if OnAir(d) == 1 then [Went(d.since, d.clock + AIRTIME_MS, 1_000)] else [])
            && d1.onAir == None && d1.clock == d.clock + AIRTIME_MS
            && d1.sending.queue == d.sending.queue && d1.sending.running == d.sending.running
  {
    assert GapMs(AIRTIME_US) == 1_000;
  }

  lemma GiveOutTakesOne(d: Driver)
    requires d.onAir == None && d.sending.running && d.sending.queue != []
    ensures var d2 := Apply(d, GiveOut(d.clock, true));
            && d2.log == d.log && d2.clock == d.clock == d2.since && d2.sending.running
            && d2.sending.queue == d.sending.queue[1..] && d2.onAir == Some(d.sending.queue[0])
  {
  }

  lemma FlushIs(now: nat, n: nat)
    ensures var report, give := Done(now + AIRTIME_MS, Some(AIRTIME_US)), GiveOut(now + AIRTIME_MS, true);
            Flush(now, n) == if n == 0 then [report] else [report, give] + Flush(now + AIRTIME_MS, n - 1)
  {
  }

  lemma FlushedMore(out: Option<Outgoing>, start: nat, queue: seq<Outgoing>, now: nat)
    ensures Flushed(out, start, queue, now)
         == (if out.Some? && out.value.kind.Some? then [Went(start, now + AIRTIME_MS, 1_000)] else [])
            + if queue == [] then [] else Flushed(Some(queue[0]), now + AIRTIME_MS, queue[1..], now + AIRTIME_MS)
  {
  }

  /** The first report of a flush, and the next packet given out. */
  lemma ReportAndGiveOut(d: Driver)
    requires d.sending.running && d.sending.queue != []
    ensures var events := [Done(d.clock + AIRTIME_MS, Some(AIRTIME_US)), GiveOut(d.clock + AIRTIME_MS, true)];
            var d2 := Run(d, events);
            && d2.log == d.log + (if OnAir(d) == 1 then [Went(d.since, d.clock + AIRTIME_MS, 1_000)] else [])
            && d2.clock == d.clock + AIRTIME_MS == d2.since && d2.sending.running
            && d2.sending.queue == d.sending.queue[1..] && d2.onAir == Some(d.sending.queue[0])
  {
    hide Apply, Run;
    var done := d.clock + AIRTIME_MS;
    var report, give := Done(done, Some(AIRTIME_US)), GiveOut(done, true);
    ReportSends(d);
    RunOne(d, report);
    GiveOutTakesOne(Apply(d, report));
    RunOneMore(d, [report], give);
    assert [report] + [give] == [report, give];
  }

  lemma {:induction false} FlushSendsEverything(d: Driver)
    requires d.sending.running || d.sending.queue == []
    ensures Run(d, Flush(d.clock, |d.sending.queue|)).log
         == d.log + Flushed(d.onAir, d.since, d.sending.queue, d.clock)
    decreases |d.sending.queue|
  {
    hide Apply, Run, Flush, Flushed;
    var n := |d.sending.queue|;
    FlushIs(d.clock, n);
    FlushedMore(d.onAir, d.since, d.sending.queue, d.clock);
    if n == 0 {
      ReportSends(d);
      RunOne(d, Done(d.clock + AIRTIME_MS, Some(AIRTIME_US)));
      var went := if OnAir(d) == 1 then [Went(d.since, d.clock + AIRTIME_MS, 1_000)] else [];
      assert went + [] == went;
    } else {
      ReportAndGiveOut(d);
      var first := [Done(d.clock + AIRTIME_MS, Some(AIRTIME_US)), GiveOut(d.clock + AIRTIME_MS, true)];
      RunSplits(d, first, Flush(d.clock + AIRTIME_MS, n - 1));
      var went := if OnAir(d) == 1 then [Went(d.since, d.clock + AIRTIME_MS, 1_000)] else [];
      var d2 := Run(d, first);
      FlushSendsEverything(d2);
      var rest := Flushed(d2.onAir, d2.since, d2.sending.queue, d2.clock);
      assert d.log + went + rest == d.log + (went + rest);
    }
  }

  lemma {:induction false} StoppedHoldsNothing(events: seq<Event>)
    ensures var d := Run(BOOT, events);
            (d.sending.running || d.sending.queue == []) && |d.sending.queue| <= QUEUE_CAPACITY
    decreases |events|
  {
    hide Apply;
    if events != [] {
      StoppedHoldsNothing(events[..|events| - 1]);
      StepHoldsNothing(Run(BOOT, events[..|events| - 1]), events[|events| - 1]);
    }
  }

  lemma StepHoldsNothing(d: Driver, e: Event)
    requires (d.sending.running || d.sending.queue == []) && |d.sending.queue| <= QUEUE_CAPACITY
    ensures var s := Apply(d, e).sending; (s.running || s.queue == []) && |s.queue| <= QUEUE_CAPACITY
  {
    hide DueAt, Wanted, StartedAt, Withheld, Spent;
  }

  lemma {:induction false} ClockIsTheLastEvents(events: seq<Event>)
    ensures Run(BOOT, events).clock == if events == [] then 0 else events[|events| - 1].now
    ensures ClockRuns(0, events) ==> Run(BOOT, events).since <= Run(BOOT, events).clock
  {
    hide FollowStep, WantStep, TickStep, PushStep, NextStep, SentStep, Reported;
    if events != [] {
      ClockIsTheLastEvents(events[..|events| - 1]);
    }
  }

  /** The exact condition. Take a run that was guarded up to its last event, and let all that
      waits go, each packet as the one before it is done: the budget holds if that event left
      one announce outstanding at most, and is broken if it left two. */
  lemma {:induction false} TheBudgetHoldsIffOneIsOutstanding(events: seq<Event>)
    requires ClockRuns(0, events)
    requires forall n | 0 <= n < |events| - 1 :: OneAtATime(Run(BOOT, events[..n]), events[n])
    ensures var d := Run(BOOT, events);
            var longer := events + Flush(d.clock, |d.sending.queue|);
            ClockRuns(0, longer) && (Spaced(Run(BOOT, longer).log) <==> Outstanding(d) <= 1)
  {
    hide Run, Apply, Outstanding, OneAtATime, Flush, Flushed, Kept, Spaced, ClockRuns;
    var d := Run(BOOT, events);
    var n := |d.sending.queue|;
    ClockIsTheLastEvents(events);
    FlushKeepsTime(d.clock, n);
    ClocksJoin(0, events, d.clock, Flush(d.clock, n));
    StoppedHoldsNothing(events);
    FlushSendsEverything(d);
    RunSplits(BOOT, events, Flush(d.clock, n));
    KeptUpTo(events);
    if Outstanding(d) <= 1 {
      OneIsSpaced(d);
    } else {
      TwoAreNot(d);
    }
  }

  /** Guarded until the last event, and one outstanding after it. */
  lemma {:induction false} KeptUpTo(events: seq<Event>)
    requires ClockRuns(0, events)
    requires forall n | 0 <= n < |events| - 1 :: OneAtATime(Run(BOOT, events[..n]), events[n])
    ensures Outstanding(Run(BOOT, events)) <= 1 ==> Kept(Run(BOOT, events))
  {
    hide Kept, Outstanding, OneAtATime, Apply;
    if events == [] {
      BootIsKept();
    } else {
      var most, last := events[..|events| - 1], events[|events| - 1];
      assert forall n | 0 <= n < |most| :: most[..n] == events[..n];
      GuardedRun(most);
      ClockIsTheLastEvents(most);
      if Outstanding(Run(BOOT, events)) <= 1 {
        OneStepKeeps(Run(BOOT, most), last);
      }
    }
  }

  lemma OneIsSpaced(d: Driver)
    requires Kept(d) && Outstanding(d) <= 1 && d.since <= d.clock
    ensures Spaced(d.log + Flushed(d.onAir, d.since, d.sending.queue, d.clock))
  {
    hide Spaced, Announces, QuietUntil, Flushed;
    var more := Flushed(d.onAir, d.since, d.sending.queue, d.clock);
    FlushedIs(d.onAir, d.since, d.sending.queue, d.clock);
    if |more| == 1 {
      assert more == [more[0]];
      SpacedExtends(d.log, more[0]);
    } else {
      assert d.log + more == d.log;
    }
  }

  lemma TwoAreNot(d: Driver)
    requires Outstanding(d) >= 2 && d.since <= d.clock && |d.sending.queue| <= QUEUE_CAPACITY
    ensures !Spaced(d.log + Flushed(d.onAir, d.since, d.sending.queue, d.clock))
  {
    hide Announces, Flushed;
    var more := Flushed(d.onAir, d.since, d.sending.queue, d.clock);
    FlushedIs(d.onAir, d.since, d.sending.queue, d.clock);
    var log := d.log + more;
    assert log[|d.log|] == more[0] && log[|d.log| + 1] == more[1];
  }

  // ------------------------------------------------------------------ and it happens

  /** When the node starts, a port is found open, a path request comes, and the next tick is. */
  datatype Times = Times(start: nat, open: nat, asked: nat, tick: nat) {
    predicate InOrder() { start <= open <= asked <= tick < start + INTERVAL_MS }
  }

  /** The node starts; its announce waits while a port is open; a path request comes; and a
      tick later its answer waits too. */
  function BusyStart(t: Times, announce: seq<Byte>, answer: seq<Byte>): (events: seq<Event>)
    ensures |events| == 5
  {
    [Follow(t.start, true), Tick(t.start, Some(announce)), GiveOut(t.open, false), Ask(t.asked, PathResponse),
     Tick(t.tick, Some(answer))]
  }

  /** The driver at a point of it. */
  function Busy(start: nat, pending: Option<Kind>, queue: seq<Outgoing>, clock: nat, since: nat): Driver {
    var schedule := ScheduleState(None, pending, Some(start + INTERVAL_MS));
    Driver(SendingState(schedule, queue, 0, true), None, since, [], clock)
  }

  function BothWaiting(announce: seq<Byte>, answer: seq<Byte>): seq<Outgoing> {
    [Outgoing(announce, Some(Ordinary)), Outgoing(answer, Some(PathResponse))]
  }

  lemma StartAsks(start: nat)
    ensures Apply(BOOT, Follow(start, true)) == Busy(start, Some(Ordinary), [], start, 0)
  {
  }

  lemma TickQueues(start: nat, kind: Kind, queue: seq<Outgoing>, clock: nat, since: nat, now: nat, built: seq<Byte>)
    requires now < start + INTERVAL_MS && |queue| < QUEUE_CAPACITY
    ensures Apply(Busy(start, Some(kind), queue, clock, since), Tick(now, Some(built)))
         == Busy(start, None, queue + [Outgoing(built, Some(kind))], now, since)
  {
  }

  lemma PortIsOpen(start: nat, queue: seq<Outgoing>, clock: nat, now: nat)
    ensures Apply(Busy(start, None, queue, clock, 0), GiveOut(now, false)) == Busy(start, None, queue, now, now)
  {
  }

  lemma PathIsAsked(start: nat, queue: seq<Outgoing>, clock: nat, since: nat, now: nat)
    ensures Apply(Busy(start, None, queue, clock, since), Ask(now, PathResponse))
         == Busy(start, Some(PathResponse), queue, now, since)
  {
  }

  lemma BusyRun(t: Times, announce: seq<Byte>, answer: seq<Byte>)
    requires t.InOrder()
    ensures var events := BusyStart(t, announce, answer);
            && Run(BOOT, events[..1]) == Busy(t.start, Some(Ordinary), [], t.start, 0)
            && Run(BOOT, events) == Busy(t.start, None, BothWaiting(announce, answer), t.tick, t.open)
  {
    hide Run, Apply, Busy;
    var e := BusyStart(t, announce, answer);
    var first, second := Outgoing(announce, Some(Ordinary)), Outgoing(answer, Some(PathResponse));
    StartAsks(t.start);
    RunOne(BOOT, e[0]);
    assert e[..1] == [e[0]];
    TickQueues(t.start, Ordinary, [], t.start, 0, t.start, announce);
    assert [] + [first] == [first];
    RunOneMore(BOOT, e[..1], e[1]);
    assert e[..2] == e[..1] + [e[1]];
    PortIsOpen(t.start, [first], t.start, t.open);
    RunOneMore(BOOT, e[..2], e[2]);
    assert e[..3] == e[..2] + [e[2]];
    PathIsAsked(t.start, [first], t.open, t.open, t.asked);
    RunOneMore(BOOT, e[..3], e[3]);
    assert e[..4] == e[..3] + [e[3]];
    TickQueues(t.start, PathResponse, [first], t.asked, t.open, t.tick, answer);
    assert [first] + [second] == [first, second];
    RunOneMore(BOOT, e[..4], e[4]);
    assert e == e[..4] + [e[4]];
  }

  lemma TwoAnnounces(first: Outgoing, second: Outgoing)
    requires first.kind.Some? && second.kind.Some?
    ensures Announces([first, second]) == 2
  {
    assert [first, second][1..] == [second] && [second][1..] == [];
    assert Announces([second]) == 1;
  }

  lemma NoneOut(d: Driver)
    requires d.sending.queue == [] && d.onAir == None
    ensures Outstanding(d) == 0
  {
  }

  lemma TwoOut(d: Driver)
    requires d.onAir == None && |d.sending.queue| == 2
    requires d.sending.queue[0].kind.Some? && d.sending.queue[1].kind.Some?
    ensures Outstanding(d) == 2
  {
    hide Announces;
    TwoAnnounces(d.sending.queue[0], d.sending.queue[1]);
    assert d.sending.queue == [d.sending.queue[0], d.sending.queue[1]];
  }

  /** Its first four events are guarded, and its last leaves two announces out. */
  lemma BusyStartLeavesTwo(t: Times, announce: seq<Byte>, answer: seq<Byte>)
    requires t.InOrder()
    ensures var events := BusyStart(t, announce, answer);
            && (forall n | 0 <= n < 4 :: OneAtATime(Run(BOOT, events[..n]), events[n]))
            && ClockRuns(0, events) && Outstanding(Run(BOOT, events)) == 2
  {
    hide Run, Announces, Outstanding, DueStep;
    BusyRun(t, announce, answer);
    NoneOut(Busy(t.start, Some(Ordinary), [], t.start, 0));
    TwoOut(Busy(t.start, None, BothWaiting(announce, answer), t.tick, t.open));
  }

  lemma {:induction false} FlushOfTwo(start: nat, queue: seq<Outgoing>, now: nat)
    requires |queue| == 2 && queue[0].kind.Some? && queue[1].kind.Some?
    ensures Flushed(None, start, queue, now)
         == [Went(now + 20, now + 40, 1_000), Went(now + 40, now + 60, 1_000)]
  {
    hide Flushed;
    var last := [queue[1]];
    assert queue[1..] == last && last[1..] == [];
    FlushedMore(Some(queue[1]), now + 40, [], now + 40);
    FlushedMore(Some(queue[0]), now + 20, last, now + 20);
    FlushedMore(None, start, queue, now);
  }

  lemma WaitingAreTwo(announce: seq<Byte>, answer: seq<Byte>)
    ensures var queue := BothWaiting(announce, answer);
            |queue| == 2 && queue[0].kind.Some? && queue[1].kind.Some?
  {
  }

  /** When the port closes, both go: the second starts the moment the first is done, with a
      second of quiet owed. */
  lemma {:induction false} TheBudgetIsBroken(t: Times, announce: seq<Byte>, answer: seq<Byte>)
    requires t.InOrder()
    ensures var events := BusyStart(t, announce, answer);
            var longer := events + Flush(t.tick, 2);
            && (forall n | 0 <= n < 4 :: OneAtATime(Run(BOOT, events[..n]), events[n]))
            && ClockRuns(0, longer)
            && Run(BOOT, longer).log
               == [Went(t.tick + 20, t.tick + 40, 1_000), Went(t.tick + 40, t.tick + 60, 1_000)]
            && !Spaced(Run(BOOT, longer).log)
  {
    hide Run, Flush, Flushed, OneAtATime, Outstanding, Apply, BusyStart, Spaced, ClockRuns, BothWaiting;
    var events, d := BusyStart(t, announce, answer), Run(BOOT, BusyStart(t, announce, answer));
    BusyStartLeavesTwo(t, announce, answer);
    BusyRun(t, announce, answer);
    TheBudgetHoldsIffOneIsOutstanding(events);
    FlushSendsEverything(d);
    RunSplits(BOOT, events, Flush(t.tick, 2));
    WaitingAreTwo(announce, answer);
    FlushOfTwo(t.open, d.sending.queue, t.tick);
    var log := Flushed(None, t.open, d.sending.queue, t.tick);
    assert [] + log == log;
  }
}
