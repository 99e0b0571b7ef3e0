/** The navigation pad: debounce and auto-repeat, `core/src/pad.rs`.

    The classes hold the state the source holds; each method is proved equal to a step
    function on a snapshot of it, and PadLaws proves what runs of those steps do. Times are
    milliseconds on the caller's clock. */
module Pad {
  import opened Numbers
  import opened Results

  const DEBOUNCE_MS: nat := 10
  const REPEAT_DELAY_MS: nat := 400
  const REPEAT_PERIOD_MS: nat := 125

  datatype Key = Up | Down | Left | Right | Ok | Back

  const ALL_KEYS: seq<Key> := [Up, Down, Left, Right, Key.Ok, Back]

  function Index(key: Key): (i: nat)
    ensures i < 6 && ALL_KEYS[i] == key
  {
    match key
    case Up => 0
    case Down => 1
    case Left => 2
    case Right => 3
    case Ok => 4
    case Back => 5
  }

  /** The directions repeat while held; the other two keys do not. */
  predicate Repeats(key: Key) { key != Key.Ok && key != Back }

  datatype Kind = Press | Repeat

  datatype Event = Event(key: Key, kind: Kind, bounces: nat, settleMs: nat)

  /** `u64` subtraction as the release build does it. */
  function Minus(a: nat, b: nat): nat { (a - b) % 0x1_0000_0000_0000_0000 }

  // ------------------------------------------------------------------ one switch

  datatype SwitchState = SwitchState(
    settled: bool,
    raw: bool,
    unstableSince: Option<nat>,
    lastEdge: nat,
    bounces: nat,
    nextRepeat: Option<nat>)

  const RELEASED := SwitchState(false, false, None, 0, 0, None)

  function LevelStep(s: SwitchState, pressed: bool, now: nat): SwitchState {
    if pressed == s.raw then s
    else if s.unstableSince.Some? then s.(raw := pressed, bounces := Min(s.bounces + 1, 255), lastEdge := now)
    else s.(raw := pressed, unstableSince := Some(now), bounces := 0, lastEdge := now)
  }

  /** The debounce half of a poll: the level is believed once it has held. */
  function Commit(s: SwitchState, key: Key, now: nat): (SwitchState, Option<Event>) {
    if s.unstableSince.None? || SaturatingMinus(now, s.lastEdge) < DEBOUNCE_MS then (s, None)
    else
      var t := s.(unstableSince := None, settled := s.raw);
      if s.raw == s.settled then (t, None)
      else if s.raw then
        (t.(nextRepeat := if Repeats(key) then Some(now + REPEAT_DELAY_MS) else None),
         Some(Event(key, Press, s.bounces, Min(Minus(s.lastEdge, s.unstableSince.value), 65535))))
      else (t.(nextRepeat := None), None)
  }

  function PollStep(s: SwitchState, key: Key, now: nat): (SwitchState, Option<Event>) {
    var (t, event) := Commit(s, key, now);
    if t.nextRepeat.Some? && now >= t.nextRepeat.value then
      (t.(nextRepeat := Some(now + REPEAT_PERIOD_MS)), Some(Event(key, Repeat, 0, 0)))
    else (t, event)
  }

  function Earlier(a: Option<nat>, b: Option<nat>): Option<nat> {
    match (a, b)
    case (Some(x), Some(y)) => Some(Min(x, y))
    case (Some(_), None) => a
    case (None, _) => b
  }

  function SwitchDeadline(s: SwitchState): Option<nat> {
    Earlier(if s.unstableSince.Some? then Some(s.lastEdge + DEBOUNCE_MS) else None, s.nextRepeat)
  }

  class Switch {
    var settled: bool
    var raw: bool
    var unstableSince: Option<nat>
    var lastEdge: nat
    var bounces: nat
    var nextRepeat: Option<nat>

    constructor ()
      ensures State() == RELEASED
    {
      settled, raw, unstableSince, lastEdge, bounces, nextRepeat := false, false, None, 0, 0, None;
    }

    function State(): SwitchState
      reads this
    {
      SwitchState(settled, raw, unstableSince, lastEdge, bounces, nextRepeat)
    }

    method Level(pressed: bool, now: nat)
      modifies this
      ensures State() == LevelStep(old(State()), pressed, now)
    {
      if pressed == raw {
        return;
      }
      raw := pressed;
      if unstableSince.Some? {
        bounces := Min(bounces + 1, 255);
      } else {
        unstableSince := Some(now);
        bounces := 0;
      }
      lastEdge := now;
    }

    method Poll(key: Key, now: nat) returns (event: Option<Event>)
      modifies this
      ensures (State(), event) == PollStep(old(State()), key, now)
    {
      event := None;
      if unstableSince.Some? {
        var since := unstableSince.value;
        if SaturatingMinus(now, lastEdge) >= DEBOUNCE_MS {
          unstableSince := None;
          if raw != settled {
            settled := raw;
            if settled {
              event := Some(Event(key, Press, bounces, Min(Minus(lastEdge, since), 65535)));
              nextRepeat := if Repeats(key) then Some(now + REPEAT_DELAY_MS) else None;
            } else {
              nextRepeat := None;
            }
          }
        }
      }
      if nextRepeat.Some? && now >= nextRepeat.value {
        event := Some(Event(key, Repeat, 0, 0));
        nextRepeat := Some(now + REPEAT_PERIOD_MS);
      }
    }

    function Deadline(): Option<nat>
      reads this
    {
      SwitchDeadline(State())
    }
  }

  // ------------------------------------------------------------ all six switches

  type PadState = s: seq<SwitchState> | |s| == 6 witness seq(6, _ => RELEASED)

  const ALL_RELEASED: PadState := seq(6, _ => RELEASED)

  function PadLevel(s: PadState, key: Key, pressed: bool, now: nat): PadState {
    s[Index(key) := LevelStep(s[Index(key)], pressed, now)]
  }

  /** The switches after a poll of the first `n`. */
  function PolledTo(s: PadState, now: nat, n: nat): PadState
    requires n <= 6
  {
    seq(6, k requires 0 <= k < 6 => if k < n then PollStep(s[k], ALL_KEYS[k], now).0 else s[k])
  }

  /** What polling the first `n` switches produces, in key order. */
  function EventsTo(s: PadState, now: nat, n: nat): seq<Event>
    requires n <= 6
  {
    if n == 0 then []
    else
      match PollStep(s[n - 1], ALL_KEYS[n - 1], now).1
      case Some(e) => EventsTo(s, now, n - 1) + [e]
      case None => EventsTo(s, now, n - 1)
  }

  function PadPoll(s: PadState, now: nat): (PadState, seq<Event>) { (PolledTo(s, now, 6), EventsTo(s, now, 6)) }

  function DeadlineTo(s: PadState, n: nat): Option<nat>
    requires n <= 6
  {
    if n == 0 then None else Earlier(DeadlineTo(s, n - 1), SwitchDeadline(s[n - 1]))
  }

  function PadDeadline(s: PadState): Option<nat> { DeadlineTo(s, 6) }

  class Pad {
    const switches: seq<Switch>

    ghost predicate Valid() {
      |switches| == 6 && forall j, k | 0 <= j < k < 6 :: switches[j] != switches[k]
    }

    constructor ()
      ensures Valid() && State() == ALL_RELEASED
      ensures forall s | s in switches :: fresh(s)
    {
      var up := new Switch();
      var down := new Switch();
      var left := new Switch();
      var right := new Switch();
      var ok := new Switch();
      var back := new Switch();
      switches := [up, down, left, right, ok, back];
    }

    function State(): PadState
      requires Valid()
      reads switches
    {
      seq(6, k requires 0 <= k < 6 reads switches => switches[k].State())
    }

    method Level(key: Key, pressed: bool, now: nat)
      requires Valid()
      modifies switches
      ensures State() == PadLevel(old(State()), key, pressed, now)
    {
      switches[Index(key)].Level(pressed, now);
    }

    method Poll(now: nat) returns (events: seq<Event>)
      requires Valid()
      modifies switches
      ensures (State(), events) == PadPoll(old(State()), now)
    {
      ghost var before := State();
      events := [];
      for k := 0 to 6
        invariant State() == PolledTo(before, now, k)
        invariant events == EventsTo(before, now, k)
      {
        assert switches[k].State() == State()[k] == before[k];
        label Unpolled:
        var event := switches[k].Poll(ALL_KEYS[k], now);
        if event.Some? {
          events := events + [event.value];
        }
        forall j | 0 <= j < 6 ensures State()[j] == PolledTo(before, now, k + 1)[j] {
          if j != k {
            assert switches[j] != switches[k];
            assert switches[j].State() == old@Unpolled(switches[j].State()) == old@Unpolled(State())[j];
          }
        }
      }
    }

    method Deadline() returns (deadline: Option<nat>)
      requires Valid()
      ensures deadline == PadDeadline(State())
    {
      deadline := None;
      for k := 0 to 6
        invariant deadline == DeadlineTo(State(), k)
      {
        deadline := Earlier(deadline, switches[k].Deadline());
      }
    }
  }
}
