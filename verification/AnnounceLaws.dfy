/** What becomes of the reasons to announce, over whole runs of `Sending`: each is answered by
    one announce, none comes unasked, and while the node runs the interval never goes by
    without one. */
module AnnounceLaws {
  import opened Results
  import opened Announce
  import opened NodeQueues
  import opened NodeQueueLaws

  // ------------------------------------------------------------------------- one call

  /** The announce a call hands out, if it does. */
  function Handed(s: SendingState, op: Op): Option<Kind> { if op.Due? then DueStep(s, op.now).1 else None }

  predicate Starts(s: SendingState, op: Op) { op.Follow? && op.running && !s.running }

  predicate Stops(s: SendingState, op: Op) { op.Follow? && !op.running && s.running }

  /** The interval has gone by, where the schedule is looked at. */
  predicate Reminds(s: SendingState, op: Op) {
    op.Due? && s.running && s.schedule.nextInterval.Some? && op.now >= s.schedule.nextInterval.value
  }

  /** Something asks for an announce of this kind: the node starts, or while it runs one is
      wanted, one did not go, or the interval has gone by. */
  predicate Asks(s: SendingState, op: Op, kind: Kind) {
    || (kind.Ordinary? && (Starts(s, op) || Reminds(s, op)))
    || (s.running && op == Want(kind))
    || (s.running && op.Report? && op.announce == Some(kind) && op.went == None)
  }

  lemma KindIsOne(kind: Option<Kind>)
    ensures kind == None || kind == Some(Ordinary) || kind == Some(PathResponse)
  {
    if kind.Some? {
      assert kind == match kind.value case Ordinary => Some(Ordinary) case PathResponse => Some(PathResponse);
    }
  }

  /** What one call does to what is pending. */
  lemma PendingAfter(s: SendingState, op: Op)
    requires s.running || s.schedule.pending.None?
    ensures Handed(s, op).Some? || Stops(s, op) ==> Step(s, op).schedule.pending == None
    ensures Handed(s, op).None? && !Stops(s, op) ==>
            Step(s, op).schedule.pending
            == if Asks(s, op, Ordinary) || s.schedule.pending == Some(Ordinary) then Some(Ordinary)
               else if Asks(s, op, PathResponse) then Some(PathResponse) else s.schedule.pending
  {
    hide Pushed, Lost;
    KindIsOne(s.schedule.pending);
    match op
    case Want(kind) => KindIsOne(Some(kind));
    case Report(announce, _, _) => KindIsOne(announce);
    case _ =>
  }

  /** What one call does to the interval. */
  lemma IntervalAfter(s: SendingState, op: Op)
    ensures Starts(s, op) || Reminds(s, op) ==>
            && Step(s, op).schedule.nextInterval == Some(op.now + INTERVAL_MS)
            && (Step(s, op).schedule.pending == Some(Ordinary) || Handed(s, op) == Some(Ordinary))
    ensures Step(s, op).running && !Starts(s, op) && !Reminds(s, op) ==>
            && s.running && Step(s, op).schedule.nextInterval == s.schedule.nextInterval
            && (s.schedule.pending == Some(Ordinary) ==>
                  Step(s, op).schedule.pending == Some(Ordinary) || Handed(s, op) == Some(Ordinary))
  {
    hide Pushed, Lost;
    match op
    case _ =>
  }

  // ----------------------------------------------------------------------- whole runs

  function StateAt(ops: seq<Op>, n: nat): SendingState
    requires n <= |ops|
  {
    Run(ops[..n]).state
  }

  function HandedAt(ops: seq<Op>, d: nat): Option<Kind>
    requires d < |ops|
  {
    Handed(StateAt(ops, d), ops[d])
  }

  predicate StartsAt(ops: seq<Op>, n: nat)
    requires n < |ops|
  {
    Starts(StateAt(ops, n), ops[n])
  }

  predicate StopsAt(ops: seq<Op>, n: nat)
    requires n < |ops|
  {
    Stops(StateAt(ops, n), ops[n])
  }

  predicate RemindsAt(ops: seq<Op>, n: nat)
    requires n < |ops|
  {
    Reminds(StateAt(ops, n), ops[n])
  }

  predicate AsksAt(ops: seq<Op>, a: nat, kind: Kind)
    requires a < |ops|
  {
    Asks(StateAt(ops, a), ops[a], kind)
  }

  /** And nothing has been handed out since, nor has the node stopped. */
  ghost predicate Waits(ops: seq<Op>, a: nat, kind: Kind)
    requires a < |ops|
  {
    AsksAt(ops, a, kind) && forall d | a <= d < |ops| :: HandedAt(ops, d) == None && !StopsAt(ops, d)
  }

  ghost predicate SomeWaits(ops: seq<Op>, kind: Kind) { exists a | 0 <= a < |ops| :: Waits(ops, a, kind) }

  lemma Earlier(ops: seq<Op>, op: Op, n: nat)
    requires n <= |ops|
    ensures StateAt(ops + [op], n) == StateAt(ops, n)
    ensures n < |ops| ==>
            var all := ops + [op];
            && all[n] == ops[n] && HandedAt(all, n) == HandedAt(ops, n)
            && (StartsAt(all, n) <==> StartsAt(ops, n)) && (StopsAt(all, n) <==> StopsAt(ops, n))
            && (RemindsAt(all, n) <==> RemindsAt(ops, n))
            && (forall kind :: AsksAt(all, n, kind) <==> AsksAt(ops, n, kind))
  {
    hide Run, Handed, Starts, Stops, Reminds, Asks;
    assert (ops + [op])[..n] == ops[..n];
  }

  lemma RunOneMore(ops: seq<Op>, op: Op)
    ensures Run(ops + [op]) == Extend(Run(ops), op)
  {
    hide Extend;
    assert (ops + [op])[..|ops|] == ops;
  }

  lemma ExtendSteps(h: History, op: Op)
    ensures Extend(h, op).state == Step(h.state, op)
  {
    hide Step, NextStep, Lost;
  }

  /** The last call of a run, and the state it was made in. */
  lemma NowIs(ops: seq<Op>, op: Op)
    ensures var all, s := ops + [op], Run(ops).state;
            && all[|ops|] == op && Run(all).state == Step(s, op)
            && HandedAt(all, |ops|) == Handed(s, op) && (StartsAt(all, |ops|) <==> Starts(s, op))
            && (StopsAt(all, |ops|) <==> Stops(s, op)) && (RemindsAt(all, |ops|) <==> Reminds(s, op))
            && (forall kind :: AsksAt(all, |ops|, kind) <==> Asks(s, op, kind))
  {
    hide Step, Run, Extend, Handed, Starts, Stops, Reminds, Asks;
    RunOneMore(ops, op);
    ExtendSteps(Run(ops), op);
    assert (ops + [op])[..|ops|] == ops;
  }

  /** What waits after one step more. */
  lemma {:induction false} WaitsMore(ops: seq<Op>, op: Op, kind: Kind)
    ensures var all := ops + [op];
            SomeWaits(all, kind) <==>
            HandedAt(all, |ops|) == None && !StopsAt(all, |ops|) && (SomeWaits(ops, kind) || AsksAt(all, |ops|, kind))
  {
    hide HandedAt, StopsAt, AsksAt, StateAt;
    var all := ops + [op];
    forall a | 0 <= a < |ops|
      ensures Waits(all, a, kind) <==> Waits(ops, a, kind) && HandedAt(all, |ops|) == None && !StopsAt(all, |ops|)
    {
      Earlier(ops, op, a);
      forall d | a <= d < |ops|
        ensures HandedAt(all, d) == HandedAt(ops, d) && (StopsAt(all, d) <==> StopsAt(ops, d))
      {
        Earlier(ops, op, d);
      }
    }
    if SomeWaits(ops, kind) && HandedAt(all, |ops|) == None && !StopsAt(all, |ops|) {
      var a :| 0 <= a < |ops| && Waits(ops, a, kind);
      assert Waits(all, a, kind);
    }
    if AsksAt(all, |ops|, kind) && HandedAt(all, |ops|) == None && !StopsAt(all, |ops|) {
      assert Waits(all, |ops|, kind);
    }
  }

  /** The schedule's word for what waits. */
  ghost predicate Answers(ops: seq<Op>, pending: Option<Kind>) {
    && (pending == Some(Ordinary) <==> SomeWaits(ops, Ordinary))
    && (pending == Some(PathResponse) <==> !SomeWaits(ops, Ordinary) && SomeWaits(ops, PathResponse))
  }

  /** Over any run: what is pending is what has been asked for, since the last announce was
      handed out and the node last stopped; one ordinary announce for however many reasons, and
      a path response only with no ordinary one to cover it. */
  lemma {:induction false} PendingIsWhatWasAsked(ops: seq<Op>)
    ensures Answers(ops, Run(ops).state.schedule.pending)
    decreases |ops|
  {
    hide HandedAt, StopsAt, AsksAt, Handed, Stops, Asks, SomeWaits, Step, Run;
    if ops == [] {
      NothingAsked();
    } else {
      var most, op := ops[..|ops| - 1], ops[|ops| - 1];
      assert ops == most + [op];
      PendingIsWhatWasAsked(most);
      StoppedAsksForNothing(most);
      WaitsMore(most, op, Ordinary);
      WaitsMore(most, op, PathResponse);
      NowIs(most, op);
      PendingAfter(Run(most).state, op);
    }
  }

  lemma NothingAsked()
    ensures Run([]).state == STOPPED && !SomeWaits([], Ordinary) && !SomeWaits([], PathResponse)
  {
  }

  /** And what is handed out is what was asked for: nothing else is, and with the quiet over
      and the node running, no less. */
  lemma {:induction false} HandedOutIsWhatWasAsked(ops: seq<Op>, now: nat)
    ensures var s, all := Run(ops).state, ops + [Due(now)];
            var handed := HandedAt(all, |ops|);
            var ordinary := SomeWaits(ops, Ordinary) || RemindsAt(all, |ops|);
            && (handed == Some(Ordinary) <==> s.running && now >= AllowedFromOf(s.schedule) && ordinary)
            && (handed == Some(PathResponse) <==>
                  s.running && now >= AllowedFromOf(s.schedule) && !ordinary && SomeWaits(ops, PathResponse))
  {
    hide SomeWaits, Run, HandedAt, RemindsAt;
    PendingIsWhatWasAsked(ops);
    NowIs(ops, Due(now));
  }

  // ------------------------------------------------------------------- the interval

  ghost predicate ClockRuns(ops: seq<Op>) {
    forall i, j | 0 <= i < j < |ops| && (ops[i].Follow? || ops[i].Due?) && (ops[j].Follow? || ops[j].Due?) ::
      ops[i].now <= ops[j].now
  }

  /** At `m` the interval was last set going, and since then an ordinary announce has been
      handed out, or one is pending. */
  ghost predicate SetAt(ops: seq<Op>, m: nat)
    requires m < |ops|
  {
    var s := Run(ops).state.schedule;
    && (StartsAt(ops, m) || RemindsAt(ops, m)) && s.nextInterval == Some(ops[m].now + INTERVAL_MS)
    && (forall k | m < k < |ops| :: !StartsAt(ops, k) && !RemindsAt(ops, k))
    && (s.pending == Some(Ordinary) || exists d | m <= d < |ops| :: HandedAt(ops, d) == Some(Ordinary))
  }

  lemma {:induction false} TheIntervalIsSet(ops: seq<Op>)
    requires Run(ops).state.running
    ensures exists m | 0 <= m < |ops| :: SetAt(ops, m)
    decreases |ops|
  {
    hide HandedAt, StartsAt, RemindsAt, Handed, Starts, Reminds, Step, SetAt, Run;
    if ops == [] {
      NothingAsked();
    } else {
      var most, op := ops[..|ops| - 1], ops[|ops| - 1];
      assert ops == most + [op];
      NowIs(most, op);
      IntervalAfter(Run(most).state, op);
      if StartsAt(ops, |most|) || RemindsAt(ops, |most|) {
        SetJustNow(most, op);
      } else {
        TheIntervalIsSet(most);
        var m :| 0 <= m < |most| && SetAt(most, m);
        SetStill(most, op, m);
      }
    }
  }

  lemma SetJustNow(ops: seq<Op>, op: Op)
    requires var all := ops + [op]; StartsAt(all, |ops|) || RemindsAt(all, |ops|)
    ensures SetAt(ops + [op], |ops|)
  {
    hide HandedAt, StartsAt, RemindsAt, Handed, Starts, Reminds, Run, Step;
    var all := ops + [op];
    NowIs(ops, op);
    IntervalAfter(Run(ops).state, op);
    if HandedAt(all, |ops|) == Some(Ordinary) {
      assert exists d | |ops| <= d < |all| :: HandedAt(all, d) == Some(Ordinary);
    }
  }

  lemma SetStill(ops: seq<Op>, op: Op, m: nat)
    requires m < |ops| && SetAt(ops, m) && Run(ops + [op]).state.running
    requires var all := ops + [op]; !StartsAt(all, |ops|) && !RemindsAt(all, |ops|)
    ensures SetAt(ops + [op], m)
  {
    hide HandedAt, StartsAt, RemindsAt, Handed, Starts, Reminds, Run, Step;
    var all := ops + [op];
    NowIs(ops, op);
    IntervalAfter(Run(ops).state, op);
    Earlier(ops, op, m);
    forall k | m < k < |ops| ensures !StartsAt(all, k) && !RemindsAt(all, k) {
      Earlier(ops, op, k);
    }
    if d :| m <= d < |ops| && HandedAt(ops, d) == Some(Ordinary) {
      Earlier(ops, op, d);
      assert HandedAt(all, d) == Some(Ordinary);
    }
    if HandedAt(all, |ops|) == Some(Ordinary) {
      assert exists d | m <= d < |all| :: HandedAt(all, d) == Some(Ordinary);
    }
  }

  /** Over any run on a clock that does not go back: whenever a running node looks, with the
      quiet over, an ordinary announce is handed out, or one was less than half an hour ago. */
  lemma {:induction false} TheIntervalIsKept(ops: seq<Op>, now: nat)
    requires Run(ops).state.running && now >= AllowedFromOf(Run(ops).state.schedule) && ClockRuns(ops + [Due(now)])
    ensures HandedAt(ops + [Due(now)], |ops|) == Some(Ordinary)
            || exists d | 0 <= d < |ops| :: HandedAt(ops, d) == Some(Ordinary) && now < ops[d].now + 30 * 60 * 1_000
  {
    hide SomeWaits, Run, StartsAt;
    var all := ops + [Due(now)];
    NowIs(ops, Due(now));
    TheIntervalIsSet(ops);
    HandedOutIsWhatWasAsked(ops, now);
    PendingIsWhatWasAsked(ops);
    var m :| 0 <= m < |ops| && SetAt(ops, m);
    if HandedAt(all, |ops|) != Some(Ordinary) {
      var d :| m <= d < |ops| && HandedAt(ops, d) == Some(Ordinary);
      SetIsTimed(ops, m);
      assert all[m] == ops[m] && all[d] == ops[d];
    }
  }

  lemma SetIsTimed(ops: seq<Op>, m: nat)
    requires m < |ops| && (StartsAt(ops, m) || RemindsAt(ops, m))
    ensures ops[m].Follow? || ops[m].Due?
  {
  }
}
