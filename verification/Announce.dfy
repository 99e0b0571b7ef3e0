/** When the board announces itself: the schedule of `core/src/node/announce.rs`. */
module Announce {
  import opened Results

  const CAP_PERCENT := 2
  const INTERVAL_MS := 30 * 60 * 1_000

  /** The milliseconds of quiet that `airtimeUs` of sending costs. */
  function GapMs(airtimeUs: nat): nat { airtimeUs * (100 / CAP_PERCENT) / 1_000 }

  /** Fifty airtimes, in whole milliseconds. */
  lemma GapIsFiftyAirtimes(airtimeUs: nat)
    ensures 1_000 * GapMs(airtimeUs) <= 50 * airtimeUs < 1_000 * GapMs(airtimeUs) + 1_000
  {
    assert 100 / CAP_PERCENT == 50;
  }

  datatype Kind = PathResponse | Ordinary

  datatype Quiet = Quiet(at: nat, gap: nat)

  datatype ScheduleState = ScheduleState(last: Option<Quiet>, pending: Option<Kind>, nextInterval: Option<nat>)

  const UNASKED := ScheduleState(None, None, None)

  /** An ordinary announce covers a path response. */
  function Stronger(a: Kind, b: Kind): Kind { if a.Ordinary? then a else b }

  function Wanted(s: ScheduleState, kind: Kind): ScheduleState {
    s.(pending := Some(if s.pending.Some? then Stronger(s.pending.value, kind) else kind))
  }

  function StartedAt(s: ScheduleState, now: nat): ScheduleState {
    Wanted(s, Ordinary).(nextInterval := Some(now + INTERVAL_MS))
  }

  function Withheld(s: ScheduleState): ScheduleState { s.(pending := None, nextInterval := None) }

  function AllowedFromOf(s: ScheduleState): nat { if s.last.Some? then s.last.value.at + s.last.value.gap else 0 }

  function Reminded(s: ScheduleState, now: nat): ScheduleState {
    if s.nextInterval.Some? && now >= s.nextInterval.value then StartedAt(s, now) else s
  }

  function DueAt(s: ScheduleState, now: nat): (ScheduleState, Option<Kind>) {
    var asked := Reminded(s, now);
    if now < AllowedFromOf(asked) then (asked, None) else (asked.(pending := None), asked.pending)
  }

  function Spent(s: ScheduleState, now: nat, airtimeUs: nat): ScheduleState {
    s.(last := Some(Quiet(now, GapMs(airtimeUs))))
  }

  class Schedule {
    var last: Option<Quiet>
    var pending: Option<Kind>
    var nextInterval: Option<nat>

    constructor ()
      ensures State() == UNASKED
    {
      last, pending, nextInterval := None, None, None;
    }

    function State(): ScheduleState
      reads this
    {
      ScheduleState(last, pending, nextInterval)
    }

    method Want(kind: Kind)
      modifies this
      ensures State() == Wanted(old(State()), kind)
    {
      match pending
      case None => pending := Some(kind);
      case Some(waiting) => pending := Some(Stronger(waiting, kind));
    }

    method Started(now: nat)
      modifies this
      ensures State() == StartedAt(old(State()), now)
    {
      Want(Ordinary);
      nextInterval := Some(now + INTERVAL_MS);
    }

    /** Forgets all that was asked for, and no quiet that is owed. */
    method Withhold()
      modifies this
      ensures State() == Withheld(old(State()))
    {
      pending, nextInterval := None, None;
    }

    method AllowedFrom() returns (at: nat)
      ensures at == AllowedFromOf(State())
      ensures forall quiet | last == Some(quiet) :: at == quiet.at + quiet.gap
    {
      at := if last.Some? then last.value.at + last.value.gap else 0;
    }

    method Due(now: nat) returns (kind: Option<Kind>)
      modifies this
      ensures (State(), kind) == DueAt(old(State()), now)
    {
      if nextInterval.Some? && now >= nextInterval.value {
        Want(Ordinary);
        nextInterval := Some(now + INTERVAL_MS);
      }
      var allowed := AllowedFrom();
      if now < allowed {
        return None;
      }
      kind := pending;
      pending := None;
    }

    method Sent(now: nat, airtimeUs: nat)
      modifies this
      ensures State() == Spent(old(State()), now, airtimeUs)
    {
      last := Some(Quiet(now, GapMs(airtimeUs)));
    }
  }
}
