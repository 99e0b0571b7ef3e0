/** The messages the board has received: the bounded store of `core/src/node/messages.rs`.

    What a message says is left out: here it is its hash, its sender and when it came. */
module Messages {
  import opened Bytes
  import opened Numbers
  import opened Results

  const CAPACITY := 16
  const SEEN := 64

  type Hash = seq<Byte>
  type Address = seq<Byte>

  datatype Trust = Verified | Unverified | Failed

  datatype Received = Received(hash: Hash, source: Address, at: nat, trust: Trust, unread: bool)

  datatype Arrival = New(trust: Trust) | Duplicate(kept: Option<Trust>) | Forged

  datatype Store = Store(kept: seq<Received>, seen: seq<Hash>, arrived: nat, dropped: nat, forged: nat)

  const EMPTY := Store([], [], 0, 0, 0)

  /** Where the oldest message already read is, or the end. */
  function OldestRead(kept: seq<Received>): (i: nat)
    ensures i <= |kept| && (forall j | 0 <= j < i :: kept[j].unread) && (i < |kept| ==> !kept[i].unread)
  {
    if kept == [] || !kept[0].unread then 0 else 1 + OldestRead(kept[1..])
  }

  /** Which one goes to make room: the oldest read, or the oldest of all. */
  function Leaving(kept: seq<Received>): (i: nat)
    requires kept != []
    ensures i < |kept|
  {
    if OldestRead(kept) < |kept| then OldestRead(kept) else 0
  }

  function Without<T>(s: seq<T>, i: nat): seq<T>
    requires i < |s|
  {
    s[..i] + s[i + 1..]
  }

  function TrustOf(kept: seq<Received>, hash: Hash): (trust: Option<Trust>)
    ensures trust.None? <==> forall r | r in kept :: r.hash != hash
  {
    if kept == [] then None
    else if kept[0].hash == hash then Some(kept[0].trust)
    else TrustOf(kept[1..], hash)
  }

  /** `signed` is what the sender's key says of the message, if the board knows the key. */
  function ReceiveStep(m: Store, hash: Hash, source: Address, signed: Option<bool>, at: nat): (Store, Arrival) {
    if hash in m.seen then (m, Duplicate(TrustOf(m.kept, hash)))
    else if signed == Some(false) then (m.(forged := Counted(m.forged + 1)), Forged)
    else
      var trust := if signed.Some? then Verified else Unverified;
      var full := |m.kept| == CAPACITY;
      var room := if full then Without(m.kept, Leaving(m.kept)) else m.kept;
      (Store(room + [Received(hash, source, at, trust, true)],
             (if |m.seen| == SEEN then m.seen[1..] else m.seen) + [hash],
             Counted(m.arrived + 1), if full then Counted(m.dropped + 1) else m.dropped, m.forged),
       New(trust))
  }

  /** How many of `kept` are from `peer`. */
  function From(kept: seq<Received>, peer: Address): (n: nat)
    ensures n <= |kept|
  {
    if kept == [] then 0 else From(kept[..|kept| - 1], peer) + if kept[|kept| - 1].source == peer then 1 else 0
  }

  /** The first `n` from `peer` made read. */
  function MarkFirst(kept: seq<Received>, peer: Address, n: nat): (r: seq<Received>)
    ensures |r| == |kept|
  {
    if kept == [] then []
    else
      var most, last := kept[..|kept| - 1], kept[|kept| - 1];
      MarkFirst(most, peer, n) + [if last.source == peer && From(most, peer) < n then last.(unread := false) else last]
  }

  /** A message once its sender's key is known, if it was waiting for that: `signed` has the
      hashes of the messages that key signed. */
  function Settled(r: Received, sender: Address, signed: set<Hash>): Received {
    if r.trust != Unverified || r.source != sender then r
    else r.(trust := if r.hash in signed then Verified else Failed)
  }

  function SettleAll(kept: seq<Received>, sender: Address, signed: set<Hash>): (r: seq<Received>)
    ensures |r| == |kept|
  {
    seq(|kept|, i requires 0 <= i < |kept| => Settled(kept[i], sender, signed))
  }

  /** How many of `kept` are of this trust. */
  function Trusting(kept: seq<Received>, trust: Trust): nat {
    if kept == [] then 0 else Trusting(kept[..|kept| - 1], trust) + if kept[|kept| - 1].trust == trust then 1 else 0
  }

  function Unread(kept: seq<Received>): nat {
    if kept == [] then 0 else Unread(kept[..|kept| - 1]) + if kept[|kept| - 1].unread then 1 else 0
  }

  class MessageStore {
    var kept: seq<Received>
    var seen: seq<Hash>
    var arrived: nat
    var dropped: nat
    var forged: nat

    constructor ()
      ensures State() == EMPTY
    {
      kept, seen, arrived, dropped, forged := [], [], 0, 0, 0;
    }

    function State(): Store
      reads this
    {
      Store(kept, seen, arrived, dropped, forged)
    }

    method Receive(hash: Hash, source: Address, signed: Option<bool>, at: nat) returns (arrival: Arrival)
      modifies this
      ensures (State(), arrival) == ReceiveStep(old(State()), hash, source, signed, at)
    {
      hide TrustOf, Counted, Leaving, Without;
      if hash in seen {
        return Duplicate(TrustOf(kept, hash));
      }
      var trust := Unverified;
      match signed {
        case Some(true) => trust := Verified;
        case Some(false) =>
          forged := Counted(forged + 1);
          return Forged;
        case None =>
      }
      if |seen| == SEEN {
        seen := seen[1..];
      }
      seen := seen + [hash];
      if |kept| == CAPACITY {
        kept := Without(kept, Leaving(kept));
        dropped := Counted(dropped + 1);
      }
      kept := kept + [Received(hash, source, at, trust, true)];
      arrived := Counted(arrived + 1);
      arrival := New(trust);
    }

    /** The sender's key has been heard: settles what was waiting for it, and counts it. */
    method Heard(sender: Address, signed: set<Hash>) returns (verified: nat, failed: nat)
      modifies this`kept
      ensures kept == SettleAll(old(kept), sender, signed)
      ensures verified + Trusting(old(kept), Verified) == Trusting(kept, Verified)
      ensures failed + Trusting(old(kept), Failed) == Trusting(kept, Failed)
    {
      hide Trusting, Settled;
      verified, failed := 0, 0;
      ghost var before := kept;
      NoneTrusting();
      for i := 0 to |kept|
        invariant |kept| == |before|
        invariant forall j | 0 <= j < i :: kept[j] == Settled(before[j], sender, signed)
        invariant forall j | i <= j < |kept| :: kept[j] == before[j]
        invariant verified + Trusting(before[..i], Verified) == Trusting(kept[..i], Verified)
        invariant failed + Trusting(before[..i], Failed) == Trusting(kept[..i], Failed)
      {
        ghost var done := kept[..i];
        SettledIs(kept[i], sender, signed);
        if kept[i].trust == Unverified && kept[i].source == sender {
          if kept[i].hash in signed {
            kept := kept[i := kept[i].(trust := Verified)];
            verified := verified + 1;
          } else {
            kept := kept[i := kept[i].(trust := Failed)];
            failed := failed + 1;
          }
        }
        assert kept[..i] == done;
        OneMoreTrusting(before, i, Verified);
        OneMoreTrusting(before, i, Failed);
        OneMoreTrusting(kept, i, Verified);
        OneMoreTrusting(kept, i, Failed);
      }
      assert before[..|before|] == before && kept[..|kept|] == kept;
    }

    /** Marks the first `through` of a peer's messages; the result counts those that were
        unread. */
    method Read(peer: Address, through: nat) returns (marked: nat)
      modifies this`kept
      ensures kept == MarkFirst(old(kept), peer, through)
      ensures marked + Unread(kept) == Unread(old(kept))
    {
      hide MarkFirst, From, Unread;
      var taken := 0;
      marked := 0;
      NothingToMark(peer, through);
      ghost var before := kept;
      for i := 0 to |kept|
        invariant |kept| == |before| && kept == MarkFirst(before[..i], peer, through) + before[i..]
        invariant taken == if From(before[..i], peer) < through then From(before[..i], peer) else through
        invariant marked + Unread(MarkFirst(before[..i], peer, through)) == Unread(before[..i])
      {
        ghost var done := MarkFirst(before[..i], peer, through);
        MarkNext(before, i, peer, through);
        assert kept[i] == before[i];
        if taken < through && kept[i].source == peer {
          taken := taken + 1;
          if kept[i].unread {
            kept := kept[i := kept[i].(unread := false)];
            marked := marked + 1;
          }
        }
        assert kept == done + [kept[i]] + before[i + 1..]
            == MarkFirst(before[..i + 1], peer, through) + before[i + 1..];
      }
      assert before[..|before|] == before && before[|before|..] == [];
    }
  }

  lemma NoneTrusting()
    ensures Trusting([], Verified) == 0 && Trusting([], Failed) == 0
  {
  }

  lemma SettledIs(r: Received, sender: Address, signed: set<Hash>)
    ensures Settled(r, sender, signed)
         == if r.trust != Unverified || r.source != sender then r
            else r.(trust := if r.hash in signed then Verified else Failed)
  {
  }

  lemma OneMoreTrusting(kept: seq<Received>, i: nat, trust: Trust)
    requires i < |kept|
    ensures Trusting(kept[..i + 1], trust) == Trusting(kept[..i], trust) + if kept[i].trust == trust then 1 else 0
  {
    assert kept[..i + 1][..i] == kept[..i];
  }

  lemma {:induction false} MarkFirstAt(kept: seq<Received>, peer: Address, n: nat, i: nat)
    requires i < |kept|
    ensures MarkFirst(kept, peer, n)[i]
         == if kept[i].source == peer && From(kept[..i], peer) < n then kept[i].(unread := false) else kept[i]
  {
    hide From;
    var most := kept[..|kept| - 1];
    if i < |most| {
      MarkFirstAt(most, peer, n, i);
      assert most[..i] == kept[..i];
    }
  }

  lemma MarkOneMore(kept: seq<Received>, last: Received, peer: Address, n: nat)
    ensures MarkFirst(kept + [last], peer, n)
         == MarkFirst(kept, peer, n)
            + [if last.source == peer && From(kept, peer) < n then last.(unread := false) else last]
    ensures From(kept + [last], peer) == From(kept, peer) + if last.source == peer then 1 else 0
    ensures Unread(kept + [last]) == Unread(kept) + if last.unread then 1 else 0
    ensures Unread(MarkFirst(kept + [last], peer, n)) == Unread(MarkFirst(kept, peer, n))
         + if last.unread && !(last.source == peer && From(kept, peer) < n) then 1 else 0
  {
    assert (kept + [last])[..|kept|] == kept;
    var marked := if last.source == peer && From(kept, peer) < n then last.(unread := false) else last;
    assert MarkFirst(kept + [last], peer, n) == MarkFirst(kept, peer, n) + [marked];
    UnreadOneMore(MarkFirst(kept, peer, n), marked);
  }

  lemma MarkNext(kept: seq<Received>, i: nat, peer: Address, n: nat)
    requires i < |kept|
    ensures var done, last := MarkFirst(kept[..i], peer, n), kept[i];
            var marks := last.source == peer && From(kept[..i], peer) < n;
            && MarkFirst(kept[..i + 1], peer, n) == done + [if marks then last.(unread := false) else last]
            && From(kept[..i + 1], peer) == From(kept[..i], peer) + (if last.source == peer then 1 else 0)
            && Unread(kept[..i + 1]) == Unread(kept[..i]) + (if last.unread then 1 else 0)
            && Unread(MarkFirst(kept[..i + 1], peer, n)) == Unread(done) + (if last.unread && !marks then 1 else 0)
            && kept[i..] == [last] + kept[i + 1..]
  {
    hide MarkFirst, From, Unread;
    assert kept[..i] + [kept[i]] == kept[..i + 1];
    MarkOneMore(kept[..i], kept[i], peer, n);
  }

  lemma NothingToMark(peer: Address, n: nat)
    ensures MarkFirst([], peer, n) == [] && From([], peer) == 0 && Unread([]) == 0
  {
  }

  lemma UnreadOneMore(kept: seq<Received>, last: Received)
    ensures Unread(kept + [last]) == Unread(kept) + if last.unread then 1 else 0
  {
    assert (kept + [last])[..|kept|] == kept;
  }

  // -------------------------------------------------------------------- whole runs

  datatype Op =
    | Arrives(at: nat, hash: Hash, source: Address, signed: Option<bool>)
    | Reads(at: nat, peer: Address, through: nat)
    | Hears(at: nat, sender: Address, verifies: set<Hash>)

  function Step(m: Store, op: Op): Store {
    match op
    case Arrives(at, hash, source, signed) => ReceiveStep(m, hash, source, signed, at).0
    case Reads(_, peer, through) => m.(kept := MarkFirst(m.kept, peer, through))
    case Hears(_, sender, verifies) => m.(kept := SettleAll(m.kept, sender, verifies))
  }

  function Run(m: Store, ops: seq<Op>): Store
    decreases |ops|
  {
    if ops == [] then m else Step(Run(m, ops[..|ops| - 1]), ops[|ops| - 1])
  }

  ghost predicate ClockRuns(ops: seq<Op>) { forall i, j | 0 <= i < j < |ops| :: ops[i].at <= ops[j].at }

  ghost predicate InTimeOrder(kept: seq<Received>) { forall i, j | 0 <= i < j < |kept| :: kept[i].at <= kept[j].at }

  /** Bounded, in time order, and the last message to arrive is no later than `now`. */
  ghost predicate Sound(m: Store, now: nat) {
    && |m.kept| <= CAPACITY && |m.seen| <= SEEN
    && InTimeOrder(m.kept) && forall r | r in m.kept :: r.at <= now
  }

  lemma StepKeepsSound(m: Store, op: Op, now: nat)
    requires Sound(m, now) && now <= op.at
    ensures Sound(Step(m, op), op.at)
  {
    hide MarkFirst, Leaving, Counted, TrustOf;
    match op
    case Arrives(at, hash, source, signed) =>
      var room := if |m.kept| == CAPACITY then Without(m.kept, Leaving(m.kept)) else m.kept;
      RoomStaysInOrder(m.kept, now);
      OneMoreInOrder(room, Received(hash, source, at, if signed.Some? then Verified else Unverified, true));
    case Reads(_, peer, through) =>
      forall i | 0 <= i < |m.kept| ensures MarkFirst(m.kept, peer, through)[i].at == m.kept[i].at {
        MarkFirstAt(m.kept, peer, through, i);
      }
    case Hears(_, sender, verifies) =>
      assert forall i | 0 <= i < |m.kept| :: SettleAll(m.kept, sender, verifies)[i].at == m.kept[i].at;
  }

  lemma RoomStaysInOrder(kept: seq<Received>, now: nat)
    requires InTimeOrder(kept) && forall r | r in kept :: r.at <= now
    ensures kept != [] ==> var room := Without(kept, Leaving(kept));
                           |room| == |kept| - 1 && InTimeOrder(room) && forall r | r in room :: r.at <= now
  {
    hide OldestRead, Leaving;
  }

  lemma OneMoreInOrder(kept: seq<Received>, last: Received)
    requires InTimeOrder(kept) && forall r | r in kept :: r.at <= last.at
    ensures InTimeOrder(kept + [last]) && forall r | r in kept + [last] :: r.at <= last.at
  {
  }

  /** Over any run on a clock that does not go back, the store is bounded and in time order. */
  lemma {:induction false} RunsStayInTimeOrder(ops: seq<Op>)
    requires ClockRuns(ops)
    ensures Sound(Run(EMPTY, ops), if ops == [] then 0 else ops[|ops| - 1].at)
  {
    hide Step, Sound;
    if ops == [] {
      EmptyIsSound();
    } else {
      RunsStayInTimeOrder(ops[..|ops| - 1]);
      StepKeepsSound(Run(EMPTY, ops[..|ops| - 1]), ops[|ops| - 1], if |ops| == 1 then 0 else ops[|ops| - 2].at);
    }
  }

  lemma EmptyIsSound()
    ensures Sound(EMPTY, 0)
  {
  }

  /** An unread message is let go only when every message kept is unread, and then it is the
      oldest. */
  lemma OnlyRoomIsMade(m: Store, hash: Hash, source: Address, signed: Option<bool>, at: nat)
    requires |m.kept| <= CAPACITY
    ensures var (next, arrival) := ReceiveStep(m, hash, source, signed, at);
            && (!arrival.New? ==> next.kept == m.kept)
            && (arrival.New? && |m.kept| < CAPACITY ==> next.kept[..|next.kept| - 1] == m.kept)
            && (arrival.New? && |m.kept| == CAPACITY ==>
                  exists i | 0 <= i < CAPACITY :: next.kept[..CAPACITY - 1] == Without(m.kept, i)
                    && (m.kept[i].unread ==> i == 0 && forall j | 0 <= j < CAPACITY :: m.kept[j].unread)
                    && forall j | 0 <= j < i :: m.kept[j].unread)
  {
    var (next, arrival) := ReceiveStep(m, hash, source, signed, at);
    if arrival.New? && |m.kept| == CAPACITY {
      assert next.kept[..CAPACITY - 1] == Without(m.kept, Leaving(m.kept));
    }
  }
}
