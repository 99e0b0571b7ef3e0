/** Whole runs of the node's queues: every packet is accounted for, a stopped node says
    nothing, and when the announce budget holds. */
module NodeQueueLaws {
  import opened Bytes
  import opened Numbers
  import opened Results
  import opened Announce
  import opened NodeQueues

  /** The last `n` of `s`. */
  function Tail<T>(s: seq<T>, n: nat): seq<T>
    requires n <= |s|
  {
    s[|s| - n..]
  }

  /** Pushing keeps a queue the end of all that was pushed. */
  lemma PushedIsTail<T>(all: seq<T>, s: seq<T>, x: T, capacity: nat)
    requires 0 < capacity && |s| <= |all| && |s| <= capacity && s == Tail(all, |s|)
    ensures |Pushed(s, x, capacity)| + Lost(s, capacity) == |s| + 1
    ensures |Pushed(s, x, capacity)| <= capacity && |Pushed(s, x, capacity)| <= |all + [x]|
    ensures Pushed(s, x, capacity) == Tail(all + [x], |Pushed(s, x, capacity)|)
  {
  }

  lemma TailShrinks<T>(all: seq<T>, n: nat)
    requires n <= |all|
    ensures |Tail(all, n)| == n && Tail(all, 0) == []
    ensures n > 0 ==> Tail(all, n)[0] == all[|all| - n] && Tail(all, n)[1..] == Tail(all, n - 1)
  {
  }

  /** Positions, strictly increasing, all before `end`. */
  ghost predicate InOrder(s: seq<nat>, end: int) {
    && (forall i, j | 0 <= i < j < |s| :: s[i] < s[j])
    && (forall i | 0 <= i < |s| :: s[i] < end)
  }

  lemma InOrderExtends(s: seq<nat>, end: nat, later: nat)
    requires InOrder(s, end) && end < later
    ensures InOrder(s, later) && InOrder(s + [end], later)
  {
  }

  lemma InOrderWidens(s: seq<nat>, end: nat, later: nat)
    requires InOrder(s, end) && end <= later
    ensures InOrder(s, later)
  {
  }

  // -------------------------------------------------------------------- the inbox

  datatype InboxOp = Heard(inbound: Inbound) | Look | Clear

  /** Everything ever heard, which of it was looked at, by position, and what became of the
      rest. */
  datatype InboxHistory = InboxHistory(heard: seq<Inbound>, looked: seq<nat>, lost: nat, cleared: nat,
                                       waiting: seq<Inbound>, dropped: nat)

  function InboxStep(h: InboxHistory, op: InboxOp): InboxHistory {
    match op
    case Heard(inbound) =>
      var lost := Lost(h.waiting, INBOX_CAPACITY);
      h.(heard := h.heard + [inbound], lost := h.lost + lost,
         waiting := Pushed(h.waiting, inbound, INBOX_CAPACITY), dropped := Counted(h.dropped + lost))
    case Look =>
      if h.waiting == [] then h
      else h.(looked := h.looked + [|h.looked| + h.lost + h.cleared], waiting := h.waiting[1..])
    case Clear =>
      h.(cleared := h.cleared + |h.waiting|, waiting := [])
  }

  function InboxRun(ops: seq<InboxOp>): InboxHistory {
    if ops == [] then InboxHistory([], [], 0, 0, [], 0) else InboxStep(InboxRun(ops[..|ops| - 1]), ops[|ops| - 1])
  }

  ghost predicate InboxAccounted(h: InboxHistory) {
    && |h.waiting| <= INBOX_CAPACITY && |h.waiting| <= |h.heard|
    && h.waiting == Tail(h.heard, |h.waiting|)
    && |h.looked| + h.lost + h.cleared + |h.waiting| == |h.heard|
    && InOrder(h.looked, |h.heard| - |h.waiting|)
    && h.dropped == Counted(h.lost)
  }

  lemma InboxStepAccounts(h: InboxHistory, op: InboxOp)
    requires InboxAccounted(h)
    ensures InboxAccounted(InboxStep(h, op))
  {
    hide Tail, Pushed, Lost, InOrder, Counted;
    var next, end := InboxStep(h, op), |h.heard| - |h.waiting|;
    TailShrinks(h.heard, |h.waiting|);
    match op
    case Heard(inbound) =>
      PushedIsTail(h.heard, h.waiting, inbound, INBOX_CAPACITY);
      InOrderWidens(h.looked, end, |next.heard| - |next.waiting|);
      CountsAdd(h.lost, Lost(h.waiting, INBOX_CAPACITY));
    case Look =>
      if h.waiting != [] {
        InOrderExtends(h.looked, end, end + 1);
      }
    case Clear =>
      InOrderWidens(h.looked, end, |h.heard|);
  }

  /** Over any run of the inbox: what waits is the newest of what was heard; every packet
      was looked at, dropped, cleared or is waiting; those looked at were looked at in the
      order heard, none twice; and the counter is the count, in 32 bits. */
  lemma {:induction false} InboxAccountsForEveryPacket(ops: seq<InboxOp>)
    ensures InboxAccounted(InboxRun(ops))
  {
    hide InboxStep;
    if ops == [] {
      TailShrinks<Inbound>([], 0);
    } else {
      InboxAccountsForEveryPacket(ops[..|ops| - 1]);
      InboxStepAccounts(InboxRun(ops[..|ops| - 1]), ops[|ops| - 1]);
    }
  }

  /** Each look is at the packet whose position it records. */
  lemma LookedAtIsThePacketRecorded(ops: seq<InboxOp>)
    ensures var h, g := InboxRun(ops), InboxRun(ops + [Look]);
            h.waiting != [] ==> |g.looked| == |h.looked| + 1 && h.looked <= g.looked
                                && g.looked[|h.looked|] < |h.heard| && h.heard[g.looked[|h.looked|]] == h.waiting[0]
  {
    InboxAccountsForEveryPacket(ops);
    assert (ops + [Look])[..|ops|] == ops;
  }

  // ------------------------------------------------------------------ what is sent

  datatype Op =
    | Follow(running: bool, now: nat)
    | Want(kind: Kind)
    | Due(now: nat)
    | Push(packet: seq<Byte>, announce: Option<Kind>)
    | Next(nobodyOnTheLine: bool)
    | Report(announce: Option<Kind>, went: Option<nat>, now: nat)

  function Step(s: SendingState, op: Op): SendingState {
    match op
    case Follow(running, now) => FollowStep(s, running, now).0
    case Want(kind) => WantStep(s, kind)
    case Due(now) => DueStep(s, now).0
    case Push(packet, announce) => PushStep(s, packet, announce)
    case Next(nobody) => NextStep(s, nobody).0
    case Report(announce, went, now) => SentStep(s, announce, went, now)
  }

  /** The packets taken in, which of them were given out, by position, and how many were
      dropped. */
  datatype History = History(state: SendingState, accepted: seq<Outgoing>, given: seq<nat>, lost: nat)

  function Extend(h: History, op: Op): History {
    var next := Step(h.state, op);
    match op
    case Follow(running, now) =>
      h.(state := next, lost := h.lost + if h.state.running && !running then |h.state.queue| else 0)
    case Push(packet, announce) =>
      if h.state.running
      then History(next, h.accepted + [Outgoing(packet, announce)], h.given,
                   h.lost + Lost(h.state.queue, QUEUE_CAPACITY))
      else h.(state := next)
    case Next(nobody) =>
      if NextStep(h.state, nobody).1.Some?
      then h.(state := next, given := h.given + [|h.given| + h.lost])
      else h.(state := next)
    case _ => h.(state := next)
  }

  function Run(ops: seq<Op>): History {
    if ops == [] then History(STOPPED, [], [], 0) else Extend(Run(ops[..|ops| - 1]), ops[|ops| - 1])
  }

  ghost predicate Accounted(h: History) {
    && (!h.state.running ==> h.state.queue == [])
    && |h.state.queue| <= QUEUE_CAPACITY && |h.state.queue| <= |h.accepted|
    && h.state.queue == Tail(h.accepted, |h.state.queue|)
    && |h.given| + h.lost + |h.state.queue| == |h.accepted|
    && InOrder(h.given, |h.accepted| - |h.state.queue|)
    && h.state.dropped == Counted(h.lost)
  }

  lemma LostAsCounted(s: seq<Outgoing>)
    ensures Lost(s, QUEUE_CAPACITY) == if |s| == QUEUE_CAPACITY then 1 else 0
  {
  }

  lemma ExtendAccounts(h: History, op: Op)
    requires Accounted(h)
    ensures Accounted(Extend(h, op))
  {
    hide DueAt, Wanted, StartedAt, Withheld, Spent, Tail, Pushed, Lost, InOrder, Counted;
    var next, end := Extend(h, op), |h.accepted| - |h.state.queue|;
    TailShrinks(h.accepted, |h.state.queue|);
    match op
    case Follow(running, now) =>
      InOrderWidens(h.given, end, |h.accepted|);
      CountsAdd(h.lost, |h.state.queue|);
    case Push(packet, announce) =>
      PushedIsTail(h.accepted, h.state.queue, Outgoing(packet, announce), QUEUE_CAPACITY);
      InOrderWidens(h.given, end, end + Lost(h.state.queue, QUEUE_CAPACITY));
      CountsAdd(h.lost, 1);
      LostAsCounted(h.state.queue);
    case Next(nobody) =>
      InOrderExtends(h.given, end, end + 1);
    case _ =>
  }

  /** Over any run whatever: a stopped node holds nothing; every packet accepted was given
      out, was dropped or waits; those given out went in the order they came, none twice;
      and the counter is the count, in 32 bits. */
  lemma {:induction false} RunsAccountForEveryPacket(ops: seq<Op>)
    ensures Accounted(Run(ops))
  {
    hide Extend;
    if ops != [] {
      RunsAccountForEveryPacket(ops[..|ops| - 1]);
      ExtendAccounts(Run(ops[..|ops| - 1]), ops[|ops| - 1]);
    }
  }

  /** A packet comes out only of a running node with nobody on the line, and is the one at
      the position recorded. */
  lemma GivenIsThePacketRecorded(ops: seq<Op>, nobody: bool)
    ensures var h, g, out := Run(ops), Run(ops + [Next(nobody)]), NextStep(Run(ops).state, nobody).1;
            && (out.Some? <==> h.state.running && nobody && h.state.queue != [])
            && (out.Some? ==> |g.given| == |h.given| + 1 && h.given <= g.given
                              && g.given[|h.given|] < |h.accepted| && h.accepted[g.given[|h.given|]] == out.value)
            && (out.None? ==> g == h)
  {
    RunsAccountForEveryPacket(ops);
    assert (ops + [Next(nobody)])[..|ops|] == ops;
  }

  lemma StoppedStepIsSilent(h: History, op: Op)
    requires !h.state.running && h.state.queue == [] && (op.Follow? ==> !op.running)
    ensures var g := Extend(h, op);
            && !g.state.running && g.state.queue == [] && g.given == h.given && g.accepted == h.accepted
            && g.lost == h.lost
  {
  }

  lemma StepWithholds(s: SendingState, op: Op)
    requires !s.running ==> s.schedule.pending.None? && s.schedule.nextInterval.None?
    ensures var t := Step(s, op);
            !t.running ==> t.schedule.pending.None? && t.schedule.nextInterval.None?
  {
  }

  /** After any run, a stopped node has no announce asked for and none to come. */
  lemma {:induction false} StoppedAsksForNothing(ops: seq<Op>)
    ensures var s := Run(ops).state;
            !s.running ==> s.schedule.pending.None? && s.schedule.nextInterval.None?
  {
    hide Step;
    if ops != [] {
      StoppedAsksForNothing(ops[..|ops| - 1]);
      StepWithholds(Run(ops[..|ops| - 1]).state, ops[|ops| - 1]);
    }
  }

  /** A stopped node is silent, whatever is asked of it, until it runs again: nothing is taken
      in, given out or dropped, and no announce waits or comes due. */
  lemma {:induction false} StoppedNodeIsSilent(ops: seq<Op>, more: seq<Op>)
    requires !Run(ops).state.running
    requires forall i | 0 <= i < |more| :: more[i].Follow? ==> !more[i].running
    ensures var h, g := Run(ops), Run(ops + more);
            && !g.state.running && g.state.queue == [] && g.given == h.given && g.accepted == h.accepted
            && g.lost == h.lost
            && g.state.schedule.pending.None? && g.state.schedule.nextInterval.None?
  {
    hide Extend;
    StoppedAsksForNothing(ops + more);
    if more == [] {
      assert ops + more == ops;
      RunsAccountForEveryPacket(ops);
    } else {
      var most := more[..|more| - 1];
      StoppedNodeIsSilent(ops, most);
      assert (ops + more)[..|ops + more| - 1] == ops + most;
      StoppedStepIsSilent(Run(ops + most), more[|more| - 1]);
    }
  }
}
