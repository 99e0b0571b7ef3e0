/** Whether a message is kept once. The store knows a retry by the last 64 hashes to arrive,
    and those need not be the hashes of the messages it still keeps. */
module MessageLaws {
  import opened Numbers
  import opened Results
  import opened Messages

  ghost predicate KeptOnce(kept: seq<Received>) {
    forall i, j | 0 <= i < j < |kept| :: kept[i].hash != kept[j].hash
  }

  /** Some message kept, other than the one that would go to make room, has this hash. */
  ghost predicate StillKept(kept: seq<Received>, hash: Hash) {
    exists i | 0 <= i < |kept| :: kept[i].hash == hash && (|kept| == CAPACITY ==> i != Leaving(kept))
  }

  /** A message is kept twice exactly when it arrives with its hash forgotten, itself still
      kept, and nothing against its signature. */
  lemma KeptTwiceIff(m: Store, hash: Hash, source: Address, signed: Option<bool>, at: nat)
    requires KeptOnce(m.kept)
    ensures !KeptOnce(ReceiveStep(m, hash, source, signed, at).0.kept)
       <==> hash !in m.seen && signed != Some(false) && StillKept(m.kept, hash)
  {
    hide OldestRead, Leaving, TrustOf, Counted;
    var next := ReceiveStep(m, hash, source, signed, at).0.kept;
    if hash !in m.seen && signed != Some(false) {
      var room := if |m.kept| == CAPACITY then Without(m.kept, Leaving(m.kept)) else m.kept;
      RoomIsKept(m.kept, hash);
      assert next[..|next| - 1] == room && next[|next| - 1].hash == hash;
      if i :| 0 <= i < |room| && room[i].hash == hash {
        assert next[i].hash == next[|next| - 1].hash;
      }
    }
  }

  lemma RoomIsKept(kept: seq<Received>, hash: Hash)
    requires KeptOnce(kept)
    ensures var room := if |kept| == CAPACITY then Without(kept, Leaving(kept)) else kept;
            KeptOnce(room) && ((exists i | 0 <= i < |room| :: room[i].hash == hash) <==> StillKept(kept, hash))
  {
    hide OldestRead, Leaving, Without;
    if |kept| == CAPACITY {
      WithoutOne(kept, Leaving(kept), hash);
    }
  }

  lemma WithoutOne(kept: seq<Received>, out: nat, hash: Hash)
    requires KeptOnce(kept) && out < |kept|
    ensures KeptOnce(Without(kept, out))
    ensures (exists i | 0 <= i < |kept| - 1 :: Without(kept, out)[i].hash == hash)
       <==> (exists i | 0 <= i < |kept| :: kept[i].hash == hash && i != out)
    ensures |Without(kept, out)| == |kept| - 1
  {
    var room := Without(kept, out);
    forall i | 0 <= i < |room| ensures room[i] == kept[if i < out then i else i + 1] {}
    if i :| 0 <= i < |kept| && kept[i].hash == hash && i != out {
      assert room[if i < out then i else i - 1].hash == hash;
    }
    if i :| 0 <= i < |room| && room[i].hash == hash {
      assert kept[if i < out then i else i + 1].hash == hash;
    }
  }

  /** The arrival of a message that is kept, as a message nobody knows. */
  ghost predicate KeepsTwice(m: Store, op: Op) {
    op.Arrives? && op.hash !in m.seen && op.signed != Some(false) && StillKept(m.kept, op.hash)
  }

  lemma MarksKeepHashes(kept: seq<Received>, peer: Address, n: nat)
    ensures KeptOnce(MarkFirst(kept, peer, n)) <==> KeptOnce(kept)
  {
    hide MarkFirst, From;
    var read := MarkFirst(kept, peer, n);
    forall i | 0 <= i < |kept| ensures read[i].hash == kept[i].hash {
      MarkFirstAt(kept, peer, n, i);
    }
  }

  lemma SettlingKeepsHashes(kept: seq<Received>, sender: Address, signed: set<Hash>)
    ensures KeptOnce(SettleAll(kept, sender, signed)) <==> KeptOnce(kept)
  {
    var settled := SettleAll(kept, sender, signed);
    assert forall i | 0 <= i < |kept| :: settled[i].hash == kept[i].hash;
  }

  lemma StepKeepsOnceIff(m: Store, op: Op)
    requires KeptOnce(m.kept)
    ensures KeptOnce(Step(m, op).kept) <==> !KeepsTwice(m, op)
  {
    hide ReceiveStep, MarkFirst, SettleAll, KeptOnce, StillKept;
    match op
    case Arrives(at, hash, source, signed) => KeptTwiceIff(m, hash, source, signed, at);
    case Reads(_, peer, through) => MarksKeepHashes(m.kept, peer, through);
    case Hears(_, sender, verifies) => SettlingKeepsHashes(m.kept, sender, verifies);
  }

  /** Over a run: each message is kept once, all the way, exactly when no arrival in it is of
      a message still kept and forgotten. */
  lemma {:induction false} RunsKeepOnceIff(ops: seq<Op>)
    ensures (forall n | 0 <= n <= |ops| :: KeptOnce(Run(EMPTY, ops[..n]).kept))
       <==> (forall n | 0 <= n < |ops| :: !KeepsTwice(Run(EMPTY, ops[..n]), ops[n]))
  {
    hide Step, KeptOnce, KeepsTwice;
    if forall n | 0 <= n <= |ops| :: KeptOnce(Run(EMPTY, ops[..n]).kept) {
      forall n | 0 <= n < |ops| ensures !KeepsTwice(Run(EMPTY, ops[..n]), ops[n]) {
        RunOneMore(ops, n);
        StepKeepsOnceIff(Run(EMPTY, ops[..n]), ops[n]);
      }
    }
    if forall n | 0 <= n < |ops| :: !KeepsTwice(Run(EMPTY, ops[..n]), ops[n]) {
      forall n | 0 <= n <= |ops| ensures KeptOnce(Run(EMPTY, ops[..n]).kept) {
        OnceUpTo(ops, n);
      }
    }
  }

  lemma RunOneMore(ops: seq<Op>, n: nat)
    requires n < |ops|
    ensures Run(EMPTY, ops[..n + 1]) == Step(Run(EMPTY, ops[..n]), ops[n])
  {
    hide Step;
    assert ops[..n + 1][..n] == ops[..n];
  }

  lemma {:induction false} OnceUpTo(ops: seq<Op>, n: nat)
    requires n <= |ops| && forall k | 0 <= k < |ops| :: !KeepsTwice(Run(EMPTY, ops[..k]), ops[k])
    ensures KeptOnce(Run(EMPTY, ops[..n]).kept)
  {
    hide Step, KeepsTwice, Run;
    if n == 0 {
      EmptyIsKeptOnce(ops);
    } else {
      OnceUpTo(ops, n - 1);
      RunOneMore(ops, n - 1);
      StepKeepsOnceIff(Run(EMPTY, ops[..n - 1]), ops[n - 1]);
    }
  }

  lemma EmptyIsKeptOnce(ops: seq<Op>)
    ensures KeptOnce(Run(EMPTY, ops[..0]).kept)
  {
  }

  // ------------------------------------------------------------------ and it happens

  /** The second to the `n`th of `hashes` come from `peer`, each read before the next. */
  function Chatter(hashes: seq<Hash>, peer: Address, n: nat): seq<Op>
    requires n < |hashes|
  {
    if n == 0 then []
    else Chatter(hashes, peer, n - 1) + [Arrives(0, hashes[n], peer, None), Reads(0, peer, CAPACITY)]
  }

  /** The first message unread at the front, all else from `peer` and read, and the hashes of
      the last `SEEN` remembered. */
  ghost predicate Waiting(m: Store, hashes: seq<Hash>, source: Address, peer: Address, n: nat)
    requires n < |hashes|
  {
    && 1 <= |m.kept| <= CAPACITY && (n >= CAPACITY ==> |m.kept| == CAPACITY)
    && (n < CAPACITY ==> |m.kept| == n + 1)
    && m.kept[0] == Received(hashes[0], source, 0, Unverified, true)
    && (forall i | 1 <= i < |m.kept| :: m.kept[i].source == peer && !m.kept[i].unread)
    && m.seen == hashes[if n < SEEN then 0 else n + 1 - SEEN..n + 1]
  }

  ghost predicate Distinct(hashes: seq<Hash>) {
    forall i, j | 0 <= i < j < |hashes| :: hashes[i] != hashes[j]
  }

  lemma {:induction false} ChatterWaits(hashes: seq<Hash>, source: Address, peer: Address, n: nat)
    requires n < |hashes| && Distinct(hashes) && source != peer
    ensures Waiting(Run(EMPTY, [Arrives(0, hashes[0], source, None)] + Chatter(hashes, peer, n)),
                    hashes, source, peer, n)
  {
    hide Waiting, Step, Distinct;
    var first := Arrives(0, hashes[0], source, None);
    if n == 0 {
      assert [first] + [] == [first] && [first][..0] == [];
      FirstWaits(hashes, source, peer);
    } else {
      ChatterWaits(hashes, source, peer, n - 1);
      var before := [first] + Chatter(hashes, peer, n - 1);
      var comes, shown := Arrives(0, hashes[n], peer, None), Reads(0, peer, CAPACITY);
      assert [first] + Chatter(hashes, peer, n) == before + [comes] + [shown];
      assert (before + [comes] + [shown])[..|before| + 1] == before + [comes];
      assert (before + [comes])[..|before|] == before;
      OneMoreWaits(Run(EMPTY, before), hashes, source, peer, n);
    }
  }

  lemma FirstWaits(hashes: seq<Hash>, source: Address, peer: Address)
    requires 0 < |hashes|
    ensures Waiting(Step(EMPTY, Arrives(0, hashes[0], source, None)), hashes, source, peer, 0)
  {
  }

  lemma SecondLeaves(kept: seq<Received>)
    requires |kept| >= 2 && kept[0].unread && !kept[1].unread
    ensures Leaving(kept) == 1
  {
    assert kept[1..][0] == kept[1];
  }

  lemma OneMoreWaits(m: Store, hashes: seq<Hash>, source: Address, peer: Address, n: nat)
    requires 0 < n < |hashes| && Distinct(hashes) && source != peer && Waiting(m, hashes, source, peer, n - 1)
    ensures Waiting(Step(Step(m, Arrives(0, hashes[n], peer, None)), Reads(0, peer, CAPACITY)), hashes, source, peer, n)
  {
    hide Distinct, MarkFirst, ReceiveStep;
    StrangerArrives(m, hashes, source, peer, n);
    AllButTheFirstAreRead(Step(m, Arrives(0, hashes[n], peer, None)).kept, peer);
  }

  /** The last hashes remembered are moved on by one, which was none of them. */
  lemma WindowMoves(hashes: seq<Hash>, n: nat)
    requires 0 < n < |hashes| && Distinct(hashes)
    ensures var seen := hashes[if n - 1 < SEEN then 0 else n - SEEN..n];
            && hashes[n] !in seen && (|seen| == SEEN <==> n >= SEEN)
            && (if |seen| == SEEN then seen[1..] else seen) + [hashes[n]]
               == hashes[if n < SEEN then 0 else n + 1 - SEEN..n + 1]
  {
    var from := if n - 1 < SEEN then 0 else n - SEEN;
    forall h | h in hashes[from..n] ensures h != hashes[n] {
      var i :| 0 <= i < n - from && hashes[from..n][i] == h;
      assert h == hashes[from + i];
    }
  }

  lemma StrangerArrives(m: Store, hashes: seq<Hash>, source: Address, peer: Address, n: nat)
    requires 0 < n < |hashes| && Distinct(hashes) && source != peer && Waiting(m, hashes, source, peer, n - 1)
    ensures var next := Step(m, Arrives(0, hashes[n], peer, None));
            && next.seen == hashes[if n < SEEN then 0 else n + 1 - SEEN..n + 1]
            && |next.kept| == (if |m.kept| == CAPACITY then CAPACITY else |m.kept| + 1)
            && next.kept[0] == m.kept[0] && forall i | 1 <= i < |next.kept| :: next.kept[i].source == peer
  {
    hide Counted, TrustOf, OldestRead, Leaving, Without, Distinct;
    WindowMoves(hashes, n);
    if |m.kept| == CAPACITY {
      SecondLeaves(m.kept);
      ReadMakesRoom(m.kept, peer);
    }
  }

  lemma ReadMakesRoom(kept: seq<Received>, peer: Address)
    requires |kept| >= 2 && forall i | 1 <= i < |kept| :: kept[i].source == peer
    ensures var room := Without(kept, 1);
            |room| == |kept| - 1 && room[0] == kept[0] && forall i | 1 <= i < |room| :: room[i].source == peer
  {
  }

  lemma AllButTheFirstAreRead(kept: seq<Received>, peer: Address)
    requires 1 <= |kept| <= CAPACITY && kept[0].source != peer
    requires forall i | 1 <= i < |kept| :: kept[i].source == peer
    ensures var read := MarkFirst(kept, peer, CAPACITY);
            |read| == |kept| && read[0] == kept[0]
            && forall i | 1 <= i < |read| :: read[i].source == peer && !read[i].unread
  {
    hide MarkFirst, From;
    MarkFirstAt(kept, peer, CAPACITY, 0);
    forall i | 1 <= i < |kept|
      ensures MarkFirst(kept, peer, CAPACITY)[i] == kept[i].(unread := false)
    {
      MarkFirstAt(kept, peer, CAPACITY, i);
    }
  }

  /** A message nobody has opened is still kept when 64 others have come and been read; its
      retry is then kept beside it. */
  lemma AMessageIsKeptTwice(hashes: seq<Hash>, source: Address, peer: Address)
    requires |hashes| == SEEN + 1 && Distinct(hashes) && source != peer
    ensures var first := Arrives(0, hashes[0], source, None);
            var kept := Run(EMPTY, [first] + Chatter(hashes, peer, SEEN) + [first]).kept;
            |kept| == CAPACITY && kept[0] == kept[CAPACITY - 1] == Received(hashes[0], source, 0, Unverified, true)
  {
    hide Counted, TrustOf, OldestRead, Leaving;
    var first := Arrives(0, hashes[0], source, None);
    var before := [first] + Chatter(hashes, peer, SEEN);
    ChatterWaits(hashes, source, peer, SEEN);
    assert (before + [first])[..|before|] == before;
    var m := Run(EMPTY, before);
    assert hashes[0] !in m.seen;
    SecondLeaves(m.kept);
  }
}
