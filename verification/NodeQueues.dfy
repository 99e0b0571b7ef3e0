/** What the node has waiting: the bounded queues of `core/src/node.rs`, packets heard and
    packets to send, and `Sending`, which ties the second to the mode. */
module NodeQueues {
  import opened Bytes
  import opened Numbers
  import opened Results
  import opened Announce

  const INBOX_CAPACITY := 8
  const QUEUE_CAPACITY := 4

  /** `s` with `x` behind it and the oldest gone if there were `capacity` already. */
  function Pushed<T>(s: seq<T>, x: T, capacity: nat): seq<T>
    requires capacity > 0
  {
    (if |s| == capacity then s[1..] else s) + [x]
  }

  function Lost<T>(s: seq<T>, capacity: nat): nat { if |s| == capacity then 1 else 0 }

  // ------------------------------------------------------------------- packets heard

  datatype Inbound = Inbound(packet: seq<Byte>, signal: Option<(int, int)>, at: nat)

  class Inbox {
    var packets: seq<Inbound>
    var dropped: nat

    ghost predicate Valid()
      reads this
    {
      |packets| <= INBOX_CAPACITY
    }

    constructor ()
      ensures Valid() && packets == [] && dropped == 0
    {
      packets, dropped := [], 0;
    }

    /** `full` if the oldest had to go. */
    method Push(packet: seq<Byte>, signal: Option<(int, int)>, at: nat) returns (full: bool)
      requires Valid()
      modifies this
      ensures Valid() && full == (|old(packets)| == INBOX_CAPACITY)
      ensures packets == Pushed(old(packets), Inbound(packet, signal, at), INBOX_CAPACITY)
      ensures dropped == if full then Counted(old(dropped) + 1) else old(dropped)
    {
      full := |packets| == INBOX_CAPACITY;
      if full {
        packets := packets[1..];
        dropped := Counted(dropped + 1);
      }
      packets := packets + [Inbound(packet, signal, at)];
    }

    method Pop() returns (oldest: Option<Inbound>)
      requires Valid()
      modifies this`packets
      ensures Valid()
      ensures old(packets) == [] ==> oldest == None && packets == []
      ensures old(packets) != [] ==> oldest == Some(old(packets)[0]) && packets == old(packets)[1..]
    {
      if packets == [] {
        return None;
      }
      oldest := Some(packets[0]);
      packets := packets[1..];
    }

    method Clear() returns (n: nat)
      requires Valid()
      modifies this`packets
      ensures Valid() && packets == [] && n == |old(packets)|
    {
      n := |packets|;
      packets := [];
    }
  }

  // ----------------------------------------------------------------- packets to send

  /** A packet; an announce is tagged with its kind. */
  datatype Outgoing = Outgoing(packet: seq<Byte>, kind: Option<Kind>)

  class Queue {
    var packets: seq<Outgoing>
    var dropped: nat

    ghost predicate Valid()
      reads this
    {
      |packets| <= QUEUE_CAPACITY
    }

    constructor ()
      ensures Valid() && packets == [] && dropped == 0
    {
      packets, dropped := [], 0;
    }

    method Push(packet: seq<Byte>, kind: Option<Kind>)
      requires Valid()
      modifies this
      ensures Valid() && packets == Pushed(old(packets), Outgoing(packet, kind), QUEUE_CAPACITY)
      ensures dropped == if |old(packets)| == QUEUE_CAPACITY then Counted(old(dropped) + 1) else old(dropped)
    {
      if |packets| == QUEUE_CAPACITY {
        packets := packets[1..];
        dropped := Counted(dropped + 1);
      }
      packets := packets + [Outgoing(packet, kind)];
    }

    method Pop() returns (next: Option<Outgoing>)
      requires Valid()
      modifies this`packets
      ensures Valid()
      ensures old(packets) == [] ==> next == None && packets == []
      ensures old(packets) != [] ==> next == Some(old(packets)[0]) && packets == old(packets)[1..]
    {
      if packets == [] {
        return None;
      }
      next := Some(packets[0]);
      packets := packets[1..];
    }

    method Clear() returns (n: nat)
      requires Valid()
      modifies this
      ensures Valid() && packets == [] && n == |old(packets)| && dropped == Counted(old(dropped) + n)
    {
      n := |packets|;
      dropped := Counted(dropped + n);
      packets := [];
    }
  }

  // -------------------------------------------------------------------- the rule

  datatype Followed = Started | Stopped(dropped: nat)

  datatype SendingState = SendingState(schedule: ScheduleState, queue: seq<Outgoing>, dropped: nat, running: bool)

  const STOPPED := SendingState(UNASKED, [], 0, false)

  function FollowStep(s: SendingState, running: bool, now: nat): (SendingState, Option<Followed>) {
    if !s.running && running then
      (s.(schedule := StartedAt(s.schedule, now), running := true), Some(Started))
    else if s.running && !running then
      (SendingState(Withheld(s.schedule), [], Counted(s.dropped + |s.queue|), false), Some(Stopped(|s.queue|)))
    else (s, None)
  }

  function WantStep(s: SendingState, kind: Kind): SendingState {
    if s.running then s.(schedule := Wanted(s.schedule, kind)) else s
  }

  function DueStep(s: SendingState, now: nat): (SendingState, Option<Kind>) {
    if s.running then (s.(schedule := DueAt(s.schedule, now).0), DueAt(s.schedule, now).1) else (s, None)
  }

  function PushStep(s: SendingState, packet: seq<Byte>, kind: Option<Kind>): SendingState {
    if !s.running then s
    else
      var dropped := if |s.queue| == QUEUE_CAPACITY then Counted(s.dropped + 1) else s.dropped;
      s.(queue := Pushed(s.queue, Outgoing(packet, kind), QUEUE_CAPACITY), dropped := dropped)
  }

  function NextStep(s: SendingState, nobodyOnTheLine: bool): (SendingState, Option<Outgoing>) {
    if s.running && nobodyOnTheLine && s.queue != [] then (s.(queue := s.queue[1..]), Some(s.queue[0])) else (s, None)
  }

  function SentStep(s: SendingState, kind: Option<Kind>, went: Option<nat>, now: nat): SendingState {
    if kind.None? then s
    else if went.Some? then s.(schedule := Spent(s.schedule, now, went.value))
    else WantStep(s, kind.value)
  }

  class Sending {
    const schedule: Schedule
    const queue: Queue
    var running: bool

    ghost predicate Valid()
      reads queue
    {
      queue.Valid()
    }

    function State(): SendingState
      reads this, schedule, queue
    {
      SendingState(schedule.State(), queue.packets, queue.dropped, running)
    }

    constructor ()
      ensures Valid() && fresh(schedule) && fresh(queue) && State() == STOPPED
    {
      schedule := new Schedule();
      queue := new Queue();
      running := false;
    }

    method Follow(nowRunning: bool, now: nat) returns (followed: Option<Followed>)
      requires Valid()
      modifies this, schedule, queue
      ensures Valid() && (State(), followed) == FollowStep(old(State()), nowRunning, now)
    {
      var was := running;
      running := nowRunning;
      followed := None;
      if !was && nowRunning {
        schedule.Started(now);
        followed := Some(Started);
      } else if was && !nowRunning {
        schedule.Withhold();
        var n := queue.Clear();
        followed := Some(Stopped(n));
      }
    }

    method Want(kind: Kind)
      modifies schedule
      ensures State() == WantStep(old(State()), kind)
    {
      if running {
        schedule.Want(kind);
      }
    }

    method Due(now: nat) returns (kind: Option<Kind>)
      modifies schedule
      ensures (State(), kind) == DueStep(old(State()), now)
    {
      if running {
        kind := schedule.Due(now);
      } else {
        kind := None;
      }
    }

    method Push(packet: seq<Byte>, kind: Option<Kind>)
      requires Valid()
      modifies queue
      ensures Valid() && State() == PushStep(old(State()), packet, kind)
    {
      if running {
        queue.Push(packet, kind);
      }
    }

    method Next(nobodyOnTheLine: bool) returns (next: Option<Outgoing>)
      requires Valid()
      modifies queue
      ensures Valid() && (State(), next) == NextStep(old(State()), nobodyOnTheLine)
    {
      if running && nobodyOnTheLine {
        next := queue.Pop();
      } else {
        next := None;
      }
    }

    /** What became of a packet given out: its airtime if it went. */
    method Sent(kind: Option<Kind>, went: Option<nat>, now: nat)
      modifies schedule
      ensures State() == SentStep(old(State()), kind, went, now)
    {
      match (kind, went)
      case (Some(_), Some(airtimeUs)) => schedule.Sent(now, airtimeUs);
      case (Some(k), None) => Want(k);
      case (None, _) =>
    }
  }
}
