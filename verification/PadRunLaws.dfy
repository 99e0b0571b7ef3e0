/** The six switches of a pad run apart: each is the switch of PadLaws, over its own share of
    the pad's history, and the pad's log is theirs interleaved. */
module PadRunLaws {
  import opened Results
  import opened Pad
  import opened PadLaws

  /** What one action of the driver is to one switch. */
  function StepsOfOne(key: Key, a: Action): seq<Step> {
    match a
    case Report(k, pressed, now) => if k == key then [Level(pressed, now)] else []
    case PollAt(now) => [Poll(now)]
  }

  function StepsOf(key: Key, run: seq<Action>): seq<Step> {
    if run == [] then [] else StepsOf(key, run[..|run| - 1]) + StepsOfOne(key, run[|run| - 1])
  }

  /** The events of one key among some events. */
  function OfKey(key: Key, events: seq<Event>, now: nat): seq<Emission> {
    if events == [] then []
    else
      var e := events[|events| - 1];
      OfKey(key, events[..|events| - 1], now) + if e.key == key then [Emission(now, e)] else []
  }

  /** And in a log. */
  function InLog(key: Key, log: seq<LogEntry>): seq<Emission> {
    if log == [] then []
    else InLog(key, log[..|log| - 1]) + OfKey(key, log[|log| - 1].events, log[|log| - 1].now)
  }

  lemma {:induction false} FinalOfMore(s: PadState, run: seq<Action>, a: Action)
    ensures Final(s, run + [a]) == Act(Final(s, run), a)
    ensures Log(s, run + [a]) == Log(s, run) + Produced(Final(s, run), a)
    decreases |run|
  {
    hide Act, Produced;
    if run == [] {
      assert [a][1..] == [];
    } else {
      assert (run + [a])[1..] == run[1..] + [a];
      FinalOfMore(Act(s, run[0]), run[1..], a);
    }
  }

  lemma InLongerLog(key: Key, log: seq<LogEntry>, entry: LogEntry)
    ensures InLog(key, log + [entry]) == InLog(key, log) + OfKey(key, entry.events, entry.now)
  {
    hide OfKey;
    assert (log + [entry])[..|log|] == log;
  }

  lemma OneMoreEvent(key: Key, events: seq<Event>, e: Event, now: nat)
    ensures OfKey(key, events + [e], now) == OfKey(key, events, now) + if e.key == key then [Emission(now, e)] else []
  {
    assert (events + [e])[..|events|] == events;
  }

  lemma EventIsTheSwitchs(s: SwitchState, key: Key, now: nat)
    ensures PollStep(s, key, now).1.Some? ==> PollStep(s, key, now).1.value.key == key
  {
  }

  lemma KeysAreDistinct(n: nat, key: Key)
    requires n < 6
    ensures ALL_KEYS[n] == key <==> n == Index(key)
  {
  }

  function EmittedBy(s: PadState, key: Key, now: nat): seq<Emission> {
    Emitted(PollStep(s[Index(key)], key, now).1, now)
  }

  /** A poll of the pad has for each key what its own switch emits, once its turn has come. */
  lemma {:induction false} EventsOfKey(s: PadState, key: Key, now: nat, n: nat)
    requires n <= 6
    ensures OfKey(key, EventsTo(s, now, n), now) == if Index(key) < n then EmittedBy(s, key, now) else []
  {
    hide OfKey, PollStep, Index;
    if n == 0 {
      NothingOfKey(key, now);
    } else {
      EventsOfKey(s, key, now, n - 1);
      KeysAreDistinct(n - 1, key);
      EventIsTheSwitchs(s[n - 1], ALL_KEYS[n - 1], now);
      if PollStep(s[n - 1], ALL_KEYS[n - 1], now).1.Some? {
        OneMoreEvent(key, EventsTo(s, now, n - 1), PollStep(s[n - 1], ALL_KEYS[n - 1], now).1.value, now);
      }
    }
  }

  lemma NothingOfKey(key: Key, now: nat)
    ensures OfKey(key, [], now) == []
  {
  }

  lemma ProducedOfKey(s: PadState, key: Key, log: seq<LogEntry>, a: Action)
    ensures InLog(key, log + Produced(s, a))
         == InLog(key, log) + if a.PollAt? then EmittedBy(s, key, a.now) else []
  {
    hide InLog, OfKey, Index, PollStep;
    if a.PollAt? {
      EventsOfKey(s, key, a.now, 6);
      NothingOfKey(key, a.now);
      IndexIsBelow(key);
    }
    if Produced(s, a) == [] {
      assert log + [] == log;
    } else {
      InLongerLog(key, log, Produced(s, a)[0]);
    }
  }

  lemma IndexIsBelow(key: Key)
    ensures Index(key) < 6 && ALL_KEYS[Index(key)] == key
  {
  }

  function Stepped(s: SwitchState, key: Key, step: Step): SwitchState {
    match step
    case Level(pressed, now) => LevelStep(s, pressed, now)
    case Poll(now) => PollStep(s, key, now).0
  }

  /** What one action does to one switch. */
  lemma ActOnSwitch(s: PadState, key: Key, a: Action)
    ensures var steps := StepsOfOne(key, a);
            Act(s, a)[Index(key)]
            == if steps == [] then s[Index(key)] else Stepped(s[Index(key)], key, steps[0])
  {
    hide LevelStep, PollStep;
    IndexIsBelow(key);
    match a
    case Report(k, _, _) => KeysAreDistinct(Index(k), key);
    case PollAt(_) =>
  }

  lemma RunSwitchMore(key: Key, h: seq<Step>, step: Step)
    ensures RunSwitch(key, h + [step]) == Stepped(RunSwitch(key, h), key, step)
    ensures step.Level? ==> Emissions(key, h + [step]) == Emissions(key, h)
  {
    hide LevelStep, PollStep;
    assert Before(h + [step]) == h && Latest(h + [step]) == step;
  }

  lemma Unmoved(key: Key)
    ensures ALL_RELEASED[Index(key)] == RunSwitch(key, []) && Emissions(key, []) == []
  {
  }

  /** After any run of the pad, each switch is where its own levels and the polls leave it, and
      its events in the pad's log are those its own history emits, at the same times. */
  lemma {:induction false} SwitchesRunApart(run: seq<Action>, key: Key)
    ensures Final(ALL_RELEASED, run)[Index(key)] == RunSwitch(key, StepsOf(key, run))
    ensures InLog(key, Log(ALL_RELEASED, run)) == Emissions(key, StepsOf(key, run))
    decreases |run|
  {
    hide Act, Produced, Index, RunSwitch, Emissions, PollStep, LevelStep, Owed, Final, Log;
    if run == [] {
      Unmoved(key);
      NothingRun();
    } else {
      var most, a := run[..|run| - 1], run[|run| - 1];
      var s, h := Final(ALL_RELEASED, most), StepsOf(key, most);
      assert run == most + [a];
      SwitchesRunApart(most, key);
      FinalOfMore(ALL_RELEASED, most, a);
      ActOnSwitch(s, key, a);
      ProducedOfKey(s, key, Log(ALL_RELEASED, most), a);
      assert h + [] == h;
      if StepsOfOne(key, a) != [] {
        RunSwitchMore(key, h, StepsOfOne(key, a)[0]);
      }
      if a.PollAt? {
        SwitchEmitsWhatIsOwed(key, h, a.now);
        PollUnfolds(key, h, a.now);
      }
    }
  }

  lemma NothingRun()
    ensures Final(ALL_RELEASED, []) == ALL_RELEASED && Log(ALL_RELEASED, []) == []
  {
  }

  /** So on the pad too a repeat is a direction's, never its first event, and never sooner than
      the delay after its press or the period after the repeat before it. */
  lemma PadRepeatsAreSpaced(run: seq<Action>, key: Key, i: nat)
    requires var log := InLog(key, Log(ALL_RELEASED, run)); i < |log| && log[i].event.kind == Repeat
    ensures var log := InLog(key, Log(ALL_RELEASED, run));
            0 < i && Repeats(key) && RepeatFrom(log[..i]) <= log[i].now
  {
    hide InLog, Log, Emissions, RepeatFrom, Repeats;
    SwitchesRunApart(run, key);
    RepeatsAreSpaced(key, StepsOf(key, run), i);
  }

  /** No pad run repeats OK or Back. */
  lemma PadOkAndBackNeverRepeat(run: seq<Action>, key: Key, i: nat)
    requires (key == Key.Ok || key == Back) && i < |InLog(key, Log(ALL_RELEASED, run))|
    ensures InLog(key, Log(ALL_RELEASED, run))[i].event.kind == Press
  {
    hide InLog, Log, Emissions;
    SwitchesRunApart(run, key);
    OkAndBackNeverRepeat(key, StepsOf(key, run), i);
  }

  /** Each event of a switch comes of a poll of its history, which owed it. */
  ghost predicate ComesOf(key: Key, h: seq<Step>, i: nat, j: nat)
    requires i < |Emissions(key, h)| && j < |h|
  {
    var log := Emissions(key, h);
    && h[j].Poll? && h[j].now == log[i].now && Emissions(key, h[..j]) == log[..i]
    && Owed(key, h[..j], log[..i], h[j].now) == Some(log[i].event)
  }

  lemma {:induction false} EventComesOfAPoll(key: Key, h: seq<Step>, i: nat) returns (j: nat)
    requires i < |Emissions(key, h)|
    ensures j < |h| && ComesOf(key, h, i, j)
  {
    hide Owed;
    var log, earlier := Emissions(key, h), Emissions(key, Before(h));
    if i < |earlier| {
      j := EventComesOfAPoll(key, Before(h), i);
      assert Before(h)[..j] == h[..j] && log[..i] == earlier[..i];
    } else {
      j := |h| - 1;
      assert log[..i] == earlier && h[..j] == Before(h);
    }
  }

  /** Events in order come of polls in order. */
  lemma LaterEventsComeLater(key: Key, h: seq<Step>, i: nat, j: nat, k: nat, m: nat)
    requires i < k < |Emissions(key, h)| && j < |h| && m < |h|
    requires ComesOf(key, h, i, j) && ComesOf(key, h, k, m)
    ensures j < m
  {
    hide Owed;
    if m < j {
      EmissionsGrow(key, h, m, j);
    }
  }

  lemma {:induction false} EmissionsGrow(key: Key, h: seq<Step>, m: nat, j: nat)
    requires m <= j <= |h|
    ensures |Emissions(key, h[..m])| <= |Emissions(key, h[..j])|
    decreases j
  {
    hide Owed;
    if m < j {
      EmissionsGrow(key, h, m, j - 1);
      assert Before(h[..j]) == h[..j - 1];
    }
  }

  /** On the pad, each press in the log, the first of its key included, comes of a poll that
      found the key's own level pressed and unchanged for the length of the debounce. */
  lemma {:induction false} PadPressIsSteady(run: seq<Action>, key: Key, i: nat)
    requires var log := InLog(key, Log(ALL_RELEASED, run)); i < |log| && log[i].event.kind == Press
    ensures var log, h := InLog(key, Log(ALL_RELEASED, run)), StepsOf(key, run);
            exists j | 0 <= j < |h| ::
              h[j] == Poll(log[i].now) && Reported(h[..j]) && Steady(h[..j], h[j].now) && !Believed(h[..j])
  {
    hide InLog, Log, Emissions, Owed, StepsOf, Reported, Steady, Believed;
    SwitchesRunApart(run, key);
    var j := EventComesOfAPoll(key, StepsOf(key, run), i);
    PressIsSteady(key, StepsOf(key, run), j);
  }

  /** And between two presses of a key in the log, a poll found that key released, and had
      found it so for the length of the debounce. */
  lemma {:induction false} PadPressesAreSeparate(run: seq<Action>, key: Key, i: nat, k: nat)
    requires var log := InLog(key, Log(ALL_RELEASED, run));
             i < k < |log| && log[i].event.kind == log[k].event.kind == Press
    ensures var log, h := InLog(key, Log(ALL_RELEASED, run)), StepsOf(key, run);
            exists j, n, m | 0 <= j < n < m < |h| ::
              h[j] == Poll(log[i].now) && ReleasedAt(h, n) && h[m] == Poll(log[k].now)
  {
    hide InLog, Log, Emissions, Owed, StepsOf, Reported, Steady, Believed, ReleasedAt;
    SwitchesRunApart(run, key);
    var h := StepsOf(key, run);
    var j := EventComesOfAPoll(key, h, i);
    var m := EventComesOfAPoll(key, h, k);
    LaterEventsComeLater(key, h, i, j, k, m);
    PressesAreSeparate(key, h, j, m);
  }
}
