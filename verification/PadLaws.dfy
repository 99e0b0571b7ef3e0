/** What runs of the pad do: the deadline is exact, polling early is harmless, and the
    events are those of a debouncer described over the whole history of a switch. */
module PadLaws {
  import opened Numbers
  import opened Results
  import opened Pad

  // ------------------------------------------------------- the deadline is exact

  predicate DueBy(deadline: Option<nat>, now: nat) { deadline.Some? && deadline.value <= now }

  lemma EarlySwitchPoll(s: SwitchState, key: Key, now: nat)
    requires !DueBy(SwitchDeadline(s), now)
    ensures PollStep(s, key, now) == (s, None)
  {
  }

  lemma DueSwitchPoll(s: SwitchState, key: Key, now: nat)
    requires SwitchDeadline(s).Some? ==> now <= SwitchDeadline(s).value
    ensures !DueBy(SwitchDeadline(PollStep(s, key, now).0), now)
  {
  }

  lemma {:induction false} DeadlineIsLeast(s: PadState, n: nat, k: nat)
    requires k < n <= 6 && SwitchDeadline(s[k]).Some?
    ensures DeadlineTo(s, n).Some? && DeadlineTo(s, n).value <= SwitchDeadline(s[k]).value
  {
    if k < n - 1 {
      DeadlineIsLeast(s, n - 1, k);
    }
  }

  lemma {:induction false} DeadlineIsSomeones(s: PadState, n: nat) returns (k: nat)
    requires n <= 6 && DeadlineTo(s, n).Some?
    ensures k < n && SwitchDeadline(s[k]) == DeadlineTo(s, n)
  {
    if SwitchDeadline(s[n - 1]) == DeadlineTo(s, n) {
      k := n - 1;
    } else {
      k := DeadlineIsSomeones(s, n - 1);
    }
  }

  lemma {:induction false} NoEvents(s: PadState, now: nat, n: nat)
    requires n <= 6 && forall k | 0 <= k < n :: PollStep(s[k], ALL_KEYS[k], now).1.None?
    ensures EventsTo(s, now, n) == []
  {
    if n > 0 {
      NoEvents(s, now, n - 1);
    }
  }

  /** Polling before the deadline, or at any time when there is none, does nothing. */
  lemma EarlyPollDoesNothing(s: PadState, now: nat)
    requires !DueBy(PadDeadline(s), now)
    ensures PadPoll(s, now) == (s, [])
  {
    forall k | 0 <= k < 6 ensures PollStep(s[k], ALL_KEYS[k], now) == (s[k], None) {
      if SwitchDeadline(s[k]).Some? {
        DeadlineIsLeast(s, 6, k);
      }
      EarlySwitchPoll(s[k], ALL_KEYS[k], now);
    }
    NoEvents(s, now, 6);
    assert PolledTo(s, now, 6) == s;
  }

  /** Polling no later than the deadline leaves one that is strictly later, or none. */
  lemma PollMovesTheDeadline(s: PadState, now: nat)
    requires PadDeadline(s).Some? ==> now <= PadDeadline(s).value
    ensures !DueBy(PadDeadline(PadPoll(s, now).0), now)
  {
    var t := PadPoll(s, now).0;
    if PadDeadline(t).Some? {
      var k := DeadlineIsSomeones(t, 6);
      if SwitchDeadline(s[k]).Some? {
        DeadlineIsLeast(s, 6, k);
      }
      DueSwitchPoll(s[k], ALL_KEYS[k], now);
    }
  }

  // --------------------------------------------- when extra polls make no difference

  datatype Action = Report(key: Key, pressed: bool, now: nat) | PollAt(now: nat)

  datatype LogEntry = LogEntry(now: nat, events: seq<Event>)

  function Act(s: PadState, a: Action): PadState {
    match a
    case Report(key, pressed, now) => PadLevel(s, key, pressed, now)
    case PollAt(now) => PadPoll(s, now).0
  }

  function Produced(s: PadState, a: Action): seq<LogEntry> {
    if a.PollAt? && PadPoll(s, a.now).1 != [] then [LogEntry(a.now, PadPoll(s, a.now).1)] else []
  }

  function Final(s: PadState, run: seq<Action>): PadState
    decreases |run|
  {
    if run == [] then s else Final(Act(s, run[0]), run[1..])
  }

  function Log(s: PadState, run: seq<Action>): seq<LogEntry>
    decreases |run|
  {
    if run == [] then [] else Produced(s, run[0]) + Log(Act(s, run[0]), run[1..])
  }

  /** A level that differs from the one last reported for its switch. */
  predicate IsEdge(s: PadState, a: Action) { a.Report? && a.pressed != s[Index(a.key)].raw }

  /** The run without its polls and its re-reads. */
  function Edges(s: PadState, run: seq<Action>): seq<Action>
    decreases |run|
  {
    if run == [] then []
    else (if IsEdge(s, run[0]) then [run[0]] else []) + Edges(Act(s, run[0]), run[1..])
  }

  /** A driver that never oversleeps: every deadline is met by a poll at that very time,
      before any later edge, and the last ones lie beyond `horizon`. */
  predicate Prompt(s: PadState, run: seq<Action>, from: nat, horizon: nat)
    decreases |run|
  {
    if run == [] then !DueBy(PadDeadline(s), horizon)
    else
      var a := run[0];
      && from <= a.now <= horizon
      && (PadDeadline(s).Some? ==> if IsEdge(s, a) then a.now < PadDeadline(s).value else a.now <= PadDeadline(s).value)
      && Prompt(Act(s, a), run[1..], a.now, horizon)
  }

  /** What the edges alone determine: poll at each deadline as it comes, until `horizon`. */
  function Determined(s: PadState, edges: seq<Action>, horizon: nat): (PadState, seq<LogEntry>)
    decreases |edges|, if DueBy(PadDeadline(s), horizon) then horizon - PadDeadline(s).value + 1 else 0
  {
    if DueBy(PadDeadline(s), horizon) && (edges == [] || PadDeadline(s).value <= edges[0].now) then
      var a := PollAt(PadDeadline(s).value);
      PollMovesTheDeadline(s, a.now);
      var rest := Determined(Act(s, a), edges, horizon);
      (rest.0, Produced(s, a) + rest.1)
    else if edges == [] then (s, [])
    else Determined(Act(s, edges[0]), edges[1..], horizon)
  }

  lemma RereadDoesNothing(s: PadState, a: Action)
    requires a.Report? && !IsEdge(s, a)
    ensures Act(s, a) == s
  {
    assert s[Index(a.key) := s[Index(a.key)]] == s;
  }

  lemma {:induction false} EdgesAreLater(s: PadState, run: seq<Action>, from: nat, horizon: nat)
    requires Prompt(s, run, from, horizon)
    ensures forall e | e in Edges(s, run) :: from <= e.now
    decreases |run|
  {
    hide PadDeadline, PadPoll;
    if run != [] {
      EdgesAreLater(Act(s, run[0]), run[1..], run[0].now, horizon);
    }
  }

  lemma {:induction false} PromptIsDetermined(s: PadState, run: seq<Action>, from: nat, horizon: nat)
    requires Prompt(s, run, from, horizon)
    ensures (Final(s, run), Log(s, run)) == Determined(s, Edges(s, run), horizon)
    decreases |run|
  {
    hide PadDeadline, PadPoll, PadLevel;
    if run != [] {
      var a := run[0];
      EdgesAreLater(s, run, from, horizon);
      EdgesAreLater(Act(s, a), run[1..], a.now, horizon);
      PromptIsDetermined(Act(s, a), run[1..], a.now, horizon);
      if a.Report? && !IsEdge(s, a) {
        RereadDoesNothing(s, a);
      } else if a.PollAt? && !DueBy(PadDeadline(s), a.now) {
        EarlyPollDoesNothing(s, a.now);
      }
      assert [] + Log(Act(s, a), run[1..]) == Log(Act(s, a), run[1..]);
      assert [] + Edges(Act(s, a), run[1..]) == Edges(Act(s, a), run[1..]);
      assert !IsEdge(s, a) || ([a] + Edges(Act(s, a), run[1..]))[1..] == Edges(Act(s, a), run[1..]);
    }
  }

  /** Two drivers that see the same edges and poll at every deadline end in the same state
      having produced the same events at the same times, however many polls and re-reads
      each of them added. */
  lemma PromptDriversAgree(s: PadState, run1: seq<Action>, run2: seq<Action>, from: nat, horizon: nat)
    requires Prompt(s, run1, from, horizon) && Prompt(s, run2, from, horizon)
    requires Edges(s, run1) == Edges(s, run2)
    ensures Final(s, run1) == Final(s, run2) && Log(s, run1) == Log(s, run2)
  {
    PromptIsDetermined(s, run1, from, horizon);
    PromptIsDetermined(s, run2, from, horizon);
  }

  // ---------------------------------------------------- one switch, over its history

  datatype Step = Level(pressed: bool, now: nat) | Poll(now: nat)

  function Before(h: seq<Step>): seq<Step>
    requires h != []
  {
    h[..|h| - 1]
  }

  function Latest(h: seq<Step>): Step
    requires h != []
  {
    h[|h| - 1]
  }

  /** The level last reported. */
  predicate Reported(h: seq<Step>) {
    h != [] && (if Latest(h).Level? then Latest(h).pressed else Reported(Before(h)))
  }

  /** When the reported level last changed. */
  function LastChange(h: seq<Step>): Option<nat> {
    if h == [] then None
    else if Latest(h).Level? && Latest(h).pressed != Reported(Before(h)) then Some(Latest(h).now)
    else LastChange(Before(h))
  }

  /** The reported level has not changed for the length of the debounce. */
  predicate Steady(h: seq<Step>, now: nat) {
    LastChange(h).None? || SaturatingMinus(now, LastChange(h).value) >= DEBOUNCE_MS
  }

  /** The level last reported to a poll that found it steady. */
  predicate Believed(h: seq<Step>) {
    h != []
    && if Latest(h).Poll? && Steady(Before(h), Latest(h).now) then Reported(Before(h)) else Believed(Before(h))
  }

  /** When the reported level changed, since a poll last found it steady. */
  function Unsettled(h: seq<Step>): seq<nat> {
    if h == [] then []
    else
      var before, step := Before(h), Latest(h);
      if step.Level? && step.pressed != Reported(before) then Unsettled(before) + [step.now]
      else if step.Poll? && Steady(before, step.now) then []
      else Unsettled(before)
  }

  datatype Emission = Emission(now: nat, event: Event)

  /** When the next repeat may come: a delay after a press, a period after a repeat. */
  function RepeatFrom(log: seq<Emission>): nat
    requires log != []
  {
    var e := log[|log| - 1];
    e.now + if e.event.kind == Press then REPEAT_DELAY_MS else REPEAT_PERIOD_MS
  }

  /** The event a poll owes at `now`, given what came before it: a press when the switch
      comes to be believed pressed, and repeats for as long as a direction stays so. */
  function Owed(key: Key, h: seq<Step>, log: seq<Emission>, now: nat): Option<Event> {
    var edges := Unsettled(h);
    if !Believed(h) && Believed(h + [Poll(now)]) && edges != [] then
      Some(Event(key, Press, Min(|edges| - 1, 255), Min(Minus(edges[|edges| - 1], edges[0]), 65535)))
    else if Repeats(key) && Believed(h) && Believed(h + [Poll(now)]) && log != [] && RepeatFrom(log) <= now then
      Some(Event(key, Repeat, 0, 0))
    else None
  }

  function Emissions(key: Key, h: seq<Step>): seq<Emission> {
    if h == [] then []
    else
      var log := Emissions(key, Before(h));
      if Latest(h).Level? then log
      else
        match Owed(key, Before(h), log, Latest(h).now)
        case Some(e) => log + [Emission(Latest(h).now, e)]
        case None => log
  }

  function RunSwitch(key: Key, h: seq<Step>): SwitchState {
    if h == [] then RELEASED
    else
      match Latest(h)
      case Level(pressed, now) => LevelStep(RunSwitch(key, Before(h)), pressed, now)
      case Poll(now) => PollStep(RunSwitch(key, Before(h)), key, now).0
  }

  /** The six fields of a switch, said of its history. */
  predicate Remembers(key: Key, h: seq<Step>, s: SwitchState) {
    var edges, log := Unsettled(h), Emissions(key, h);
    && s.raw == Reported(h)
    && s.settled == Believed(h)
    && (s.unstableSince.Some? <==> edges != [])
    && (edges == [] ==> s.raw == s.settled)
    && (edges != [] ==> s.unstableSince == Some(edges[0])
                        && Some(s.lastEdge) == Some(edges[|edges| - 1]) == LastChange(h)
                        && s.bounces == Min(|edges| - 1, 255))
    && (s.settled ==> log != [])
    && s.nextRepeat == (if Repeats(key) && s.settled && log != [] then Some(RepeatFrom(log)) else None)
  }

  lemma LevelRemembers(key: Key, h: seq<Step>, s: SwitchState, pressed: bool, now: nat)
    requires Remembers(key, h, s)
    ensures Remembers(key, h + [Level(pressed, now)], LevelStep(s, pressed, now))
  {
    var all := h + [Level(pressed, now)];
    assert Before(all) == h && Latest(all) == Level(pressed, now);
  }

  /** The event of a poll is the one its history owes. */
  lemma PollEmits(key: Key, h: seq<Step>, s: SwitchState, now: nat)
    requires Remembers(key, h, s)
    ensures PollStep(s, key, now).1 == Owed(key, h, Emissions(key, h), now)
  {
    hide Minus, Repeats, Reported, LastChange, Unsettled, Emissions;
    var all := h + [Poll(now)];
    assert Before(all) == h && Latest(all) == Poll(now);
  }

  function Emitted(event: Option<Event>, now: nat): seq<Emission> {
    if event.Some? then [Emission(now, event.value)] else []
  }

  /** What a poll adds to a history. */
  lemma PollUnfolds(key: Key, h: seq<Step>, now: nat)
    ensures var all := h + [Poll(now)];
            && Reported(all) == Reported(h) && LastChange(all) == LastChange(h)
            && Believed(all) == (if Steady(h, now) then Reported(h) else Believed(h))
            && Unsettled(all) == (if Steady(h, now) then [] else Unsettled(h))
            && Emissions(key, all) == Emissions(key, h) + Emitted(Owed(key, h, Emissions(key, h), now), now)
  {
    hide Steady, Owed;
    var all := h + [Poll(now)];
    assert Before(all) == h && Latest(all) == Poll(now);
  }

  lemma PollRemembers(key: Key, h: seq<Step>, s: SwitchState, now: nat)
    requires Remembers(key, h, s)
    ensures Remembers(key, h + [Poll(now)], PollStep(s, key, now).0)
  {
    hide Minus, Repeats, Reported, LastChange, Unsettled, Believed, Emissions;
    PollEmits(key, h, s, now);
    PollUnfolds(key, h, now);
  }

  lemma {:induction false} SwitchRemembers(key: Key, h: seq<Step>)
    ensures Remembers(key, h, RunSwitch(key, h))
  {
    hide Remembers;
    if h == [] {
      assert Remembers(key, h, RELEASED) by {
        FreshRemembers(key);
      }
    } else {
      SwitchRemembers(key, Before(h));
      assert h == Before(h) + [Latest(h)];
      match Latest(h) {
        case Level(pressed, now) => LevelRemembers(key, Before(h), RunSwitch(key, Before(h)), pressed, now);
        case Poll(now) => PollRemembers(key, Before(h), RunSwitch(key, Before(h)), now);
      }
    }
  }

  lemma FreshRemembers(key: Key)
    ensures Remembers(key, [], RELEASED)
  {
  }

  /** On any history, on any clock, a poll produces exactly the event owed. */
  lemma SwitchEmitsWhatIsOwed(key: Key, h: seq<Step>, now: nat)
    ensures PollStep(RunSwitch(key, h), key, now).1 == Owed(key, h, Emissions(key, h), now)
  {
    hide Remembers;
    SwitchRemembers(key, h);
    PollEmits(key, h, RunSwitch(key, h), now);
  }

  /** With no deadline, the switch is believed to be what it was last said to be, and is
      not a direction held down. */
  lemma NothingPendingMeansSettled(key: Key, h: seq<Step>)
    requires SwitchDeadline(RunSwitch(key, h)).None?
    ensures Believed(h) == Reported(h) && !(Repeats(key) && Believed(h))
  {
    SwitchRemembers(key, h);
    hide Believed, Reported, Unsettled, Emissions, RunSwitch;
  }

  predicate IsDirection(key: Key) { key == Up || key == Down || key == Left || key == Right }

  /** Which keys repeat and when, named one by one: a poll repeats a direction exactly when it
      was believed pressed, is still, and its last event is 400 ms old if that was its press, and
      125 if that was a repeat. OK and Back are never repeated, however long they are held. */
  lemma {:induction false} RepeatsExactlyWhenHeld(key: Key, h: seq<Step>, now: nat)
    ensures var event, log := PollStep(RunSwitch(key, h), key, now).1, Emissions(key, h);
            && (event.Some? && event.value.kind == Repeat <==>
                  && IsDirection(key) && Believed(h) && Believed(h + [Poll(now)])
                  && log != [] && log[|log| - 1].now + (if log[|log| - 1].event.kind == Press then 400 else 125) <= now)
            && (event.Some? ==> event.value.key == key)
            && (Believed(h) ==> log != [])
  {
    hide Believed, Emissions, PollStep, RunSwitch, Unsettled;
    SwitchEmitsWhatIsOwed(key, h, now);
    SwitchRemembers(key, h);
  }

  lemma {:induction false} OkAndBackNeverRepeat(key: Key, h: seq<Step>, i: nat)
    requires (key == Key.Ok || key == Back) && i < |Emissions(key, h)|
    ensures Emissions(key, h)[i].event.kind == Press
  {
    hide Emissions;
    if Emissions(key, h)[i].event.kind == Repeat {
      RepeatsAreSpaced(key, h, i);
    }
  }

  /** A repeat comes only for a direction, never first, and never sooner than the delay
      after its press or the period after the repeat before it. */
  lemma {:induction false} RepeatsAreSpaced(key: Key, h: seq<Step>, i: nat)
    requires i < |Emissions(key, h)| && Emissions(key, h)[i].event.kind == Repeat
    ensures 0 < i && Repeats(key) && RepeatFrom(Emissions(key, h)[..i]) <= Emissions(key, h)[i].now
  {
    hide Believed, Unsettled, Repeats, RepeatFrom;
    var log, earlier := Emissions(key, h), Emissions(key, Before(h));
    if i < |earlier| {
      RepeatsAreSpaced(key, Before(h), i);
      assert log[..i] == earlier[..i];
    } else {
      assert log[..i] == earlier;
    }
  }

  /** The step at `i` is a poll that produces a press. */
  predicate PressedAt(key: Key, h: seq<Step>, i: nat)
    requires i < |h|
  {
    h[i].Poll? && Owed(key, h[..i], Emissions(key, h[..i]), h[i].now).Some?
    && Owed(key, h[..i], Emissions(key, h[..i]), h[i].now).value.kind == Press
  }

  /** A poll at `k` finds the switch released, steadily, and believes it. */
  predicate ReleasedAt(h: seq<Step>, k: nat)
    requires k < |h|
  {
    h[k].Poll? && Believed(h[..k]) && !Reported(h[..k]) && Steady(h[..k], h[k].now)
  }

  lemma {:induction false} ReleaseBetween(h: seq<Step>, i: nat, j: nat)
    requires i <= j <= |h| && Believed(h[..i]) && !Believed(h[..j])
    ensures exists k | i <= k < j :: ReleasedAt(h, k)
    decreases j - i
  {
    hide Reported, Steady;
    if i < j {
      assert Before(h[..i + 1]) == h[..i] && Latest(h[..i + 1]) == h[i];
      if Believed(h[..i + 1]) {
        ReleaseBetween(h, i + 1, j);
      } else {
        assert ReleasedAt(h, i);
      }
    }
  }

  /** Each press, the first included, is of a level that had held, unchanged, for the length
      of the debounce, on a switch not believed pressed. */
  lemma PressIsSteady(key: Key, h: seq<Step>, i: nat)
    requires i < |h| && PressedAt(key, h, i)
    ensures Reported(h[..i]) && Steady(h[..i], h[i].now) && !Believed(h[..i])
  {
    hide Reported, Steady, Unsettled, Emissions;
    BelievedPress(h, i);
  }

  /** What a press tells: how many edges beyond the first it took since the switch was last
      steady, as far as 255, and the milliseconds from the first to the last, as far as 65535;
      on a clock that went back between them by less than a `u64` runs, 65535. */
  lemma PressTells(key: Key, h: seq<Step>, i: nat)
    requires i < |h| && PressedAt(key, h, i)
    ensures var edges, event := Unsettled(h[..i]), Owed(key, h[..i], Emissions(key, h[..i]), h[i].now).value;
            && edges != [] && event.key == key
            && event.bounces == (if |edges| <= 256 then |edges| - 1 else 255)
            && (edges[0] <= edges[|edges| - 1] < edges[0] + 0x1_0000_0000_0000_0000 ==>
                  event.settleMs
                  == if edges[|edges| - 1] - edges[0] <= 65535 then edges[|edges| - 1] - edges[0] else 65535)
            && (edges[|edges| - 1] < edges[0] <= edges[|edges| - 1] + 0x1_0000_0000_0000_0000 - 65536 ==>
                  event.settleMs == 65535)
  {
    hide Believed, Unsettled, Emissions;
  }

  /** And between two presses the release was debounced and believed. */
  lemma PressesAreSeparate(key: Key, h: seq<Step>, i: nat, j: nat)
    requires i < j < |h| && PressedAt(key, h, i) && PressedAt(key, h, j)
    ensures Reported(h[..j]) && Steady(h[..j], h[j].now)
    ensures exists k | i < k < j :: ReleasedAt(h, k)
  {
    hide Reported, Steady, Unsettled, Emissions;
    BelievedPress(h, i);
    BelievedPress(h, j);
    ReleaseBetween(h, i + 1, j);
  }

  lemma BelievedPress(h: seq<Step>, i: nat)
    requires i < |h| && h[i].Poll? && !Believed(h[..i]) && Believed(h[..i] + [Poll(h[i].now)])
    ensures Believed(h[..i + 1]) && Reported(h[..i]) && Steady(h[..i], h[i].now)
  {
    hide Reported, Steady;
    assert h[..i + 1] == h[..i] + [h[i]];
    assert Before(h[..i + 1]) == h[..i];
  }
}
