/** The store over whole runs: every message kept is one that came, and what is believed of it
    is what its sender's key has said of it, then or since. */
module MessageHistory {
  import opened Numbers
  import opened Results
  import opened Messages

  // ------------------------------------------------------------- one arrival at a time

  /** What the store answers, in so many words. */
  lemma WhatReceiveSays(m: Store, hash: Hash, source: Address, signed: Option<bool>, at: nat)
    ensures var arrival := ReceiveStep(m, hash, source, signed, at).1;
            && (arrival.Duplicate? <==> hash in m.seen)
            && (arrival == Forged <==> hash !in m.seen && signed == Some(false))
            && (arrival == New(Verified) <==> hash !in m.seen && signed == Some(true))
            && (arrival == New(Unverified) <==> hash !in m.seen && signed == None)
            && arrival != New(Failed)
            && (arrival.Duplicate? && arrival.kept.None? ==> forall r | r in m.kept :: r.hash != hash)
            && (arrival.Duplicate? && arrival.kept.Some? ==>
                  exists i | 0 <= i < |m.kept| :: m.kept[i].hash == hash && m.kept[i].trust == arrival.kept.value
                    && forall j | 0 <= j < i :: m.kept[j].hash != hash)
  {
    hide Leaving, Without, Counted, TrustOf;
    TrustOfFirst(m.kept, hash);
    YesOrNo(signed);
  }

  lemma YesOrNo(signed: Option<bool>)
    ensures signed == None || signed == Some(false) || signed == Some(true)
  {
    if signed.Some? {
      assert signed == if signed.value then Some(true) else Some(false);
    }
  }

  lemma {:induction false} TrustOfFirst(kept: seq<Received>, hash: Hash)
    ensures TrustOf(kept, hash).None? ==> forall r | r in kept :: r.hash != hash
    ensures TrustOf(kept, hash).Some? ==>
            exists i | 0 <= i < |kept| :: kept[i].hash == hash && kept[i].trust == TrustOf(kept, hash).value
              && forall j | 0 <= j < i :: kept[j].hash != hash
  {
    if kept != [] && kept[0].hash != hash {
      TrustOfFirst(kept[1..], hash);
      if TrustOf(kept, hash).Some? {
        var rest := kept[1..];
        var i :| 0 <= i < |rest| && rest[i].hash == hash && rest[i].trust == TrustOf(kept, hash).value
                 && forall j | 0 <= j < i :: rest[j].hash != hash;
        assert forall j | 0 < j < |kept| :: kept[j] == rest[j - 1];
        assert kept[i + 1].hash == hash;
      }
    }
  }

  // ----------------------------------------------------------------------- whole runs

  /** The arrival of a message the store has not seen, with nothing against its signature. */
  predicate TakenIn(m: Store, op: Op) { op.Arrives? && op.hash !in m.seen && op.signed != Some(false) }

  predicate Refused(m: Store, op: Op) { op.Arrives? && op.hash !in m.seen && op.signed == Some(false) }

  function Before(ops: seq<Op>): seq<Op>
    requires ops != []
  {
    ops[..|ops| - 1]
  }

  /** `from`, one for each message kept, without that of the one that goes to make room. */
  function RoomAmong(kept: seq<Received>, from: seq<nat>): seq<nat>
    requires |from| == |kept|
  {
    if |kept| == CAPACITY then Without(from, Leaving(kept)) else from
  }

  /** Where in a run each message kept came in. */
  function Origins(ops: seq<Op>): (from: seq<nat>)
    ensures |from| == |Run(EMPTY, ops).kept|
    decreases |ops|
  {
    if ops == [] then []
    else
      var m, from := Run(EMPTY, Before(ops)), Origins(Before(ops));
      if !TakenIn(m, ops[|ops| - 1]) then from
      else RoomAmong(m.kept, from) + [|ops| - 1]
  }

  predicate IsKeyOf(op: Op, sender: Address) { op.Hears? && op.sender == sender }

  /** At `n` the key of the sender of what came at `o` is heard, for the first time since. */
  ghost predicate FirstHeard(ops: seq<Op>, o: nat, n: nat)
    requires o < |ops| && ops[o].Arrives?
  {
    o < n < |ops| && IsKeyOf(ops[n], ops[o].source) && forall k | o < k < n :: !IsKeyOf(ops[k], ops[o].source)
  }

  ghost predicate NotHeard(ops: seq<Op>, o: nat)
    requires o < |ops| && ops[o].Arrives?
  {
    forall k | o < k < |ops| :: !IsKeyOf(ops[k], ops[o].source)
  }

  /** A message kept is the one that came at `o`. It is verified if its sender's key was known
      and signed it, or was not and did when first heard since; failed if it was not and did
      not; and unverified while the key has not been heard. */
  ghost predicate IsAsItCame(ops: seq<Op>, o: nat, r: Received) {
    && o < |ops| && ops[o].Arrives?
    && r.hash == ops[o].hash && r.source == ops[o].source && r.at == ops[o].at && ops[o].signed != Some(false)
    && (r.trust == Verified <==>
          ops[o].signed == Some(true) || exists n: nat :: FirstHeard(ops, o, n) && r.hash in ops[n].verifies)
    && (r.trust == Failed <==>
          ops[o].signed == None && exists n: nat :: FirstHeard(ops, o, n) && r.hash !in ops[n].verifies)
    && (r.trust == Unverified <==> ops[o].signed == None && NotHeard(ops, o))
  }

  lemma {:induction false} HeardOrNot(ops: seq<Op>, o: nat)
    requires o < |ops| && ops[o].Arrives?
    ensures NotHeard(ops, o) || exists n: nat :: FirstHeard(ops, o, n)
    decreases |ops|
  {
    if o < |ops| - 1 {
      var most := Before(ops);
      HeardOrNot(most, o);
      if n: nat :| FirstHeard(most, o, n) {
        assert FirstHeard(ops, o, n);
      } else if IsKeyOf(ops[|ops| - 1], ops[o].source) {
        assert forall k | o < k < |most| :: most[k] == ops[k];
        assert FirstHeard(ops, o, |ops| - 1);
      }
    }
  }

  lemma HeardMore(ops: seq<Op>, op: Op, o: nat)
    requires o < |ops| && ops[o].Arrives?
    ensures var all := ops + [op];
            && (NotHeard(all, o) <==> NotHeard(ops, o) && !IsKeyOf(op, ops[o].source))
            && (forall n | 0 <= n < |ops| :: FirstHeard(all, o, n) <==> FirstHeard(ops, o, n))
            && (FirstHeard(all, o, |ops|) <==> NotHeard(ops, o) && IsKeyOf(op, ops[o].source))
            && (forall n: nat | n >= |ops| :: !FirstHeard(ops, o, n))
            && (forall n: nat | n > |ops| :: !FirstHeard(all, o, n))
  {
    hide IsKeyOf;
    var all := ops + [op];
    assert forall k | 0 <= k < |ops| :: all[k] == ops[k];
    assert all[|ops|] == op;
  }

  /** A message stays the one that came, through one more step that leaves it, marks it read or
      settles it. */
  lemma StaysAsItCame(ops: seq<Op>, op: Op, o: nat, r: Received, next: Received)
    requires IsAsItCame(ops, o, r)
    requires next.(unread := r.unread) == if op.Hears? then Settled(r, op.sender, op.verifies) else r
    ensures IsAsItCame(ops + [op], o, next)
  {
    hide NotHeard, FirstHeard;
    HeardMore(ops, op, o);
    HeardOrNot(ops, o);
    var all := ops + [op];
    assert all[o] == ops[o] && all[|ops|] == op;
    if n: nat :| FirstHeard(ops, o, n) {
      StillFirst(ops, op, o, n);
      OneFirst(all, o, n);
    } else if IsKeyOf(op, ops[o].source) {
      OneFirst(all, o, |ops|);
    }
  }

  lemma StillFirst(ops: seq<Op>, op: Op, o: nat, n: nat)
    requires o < |ops| && ops[o].Arrives? && FirstHeard(ops, o, n)
    ensures o < n < |ops| && FirstHeard(ops + [op], o, n) && (ops + [op])[n] == ops[n] && !NotHeard(ops, o)
    ensures forall k: nat | FirstHeard(ops, o, k) :: k == n
  {
  }

  lemma OneFirst(ops: seq<Op>, o: nat, n: nat)
    requires o < |ops| && ops[o].Arrives? && FirstHeard(ops, o, n)
    ensures !NotHeard(ops, o) && forall k: nat | FirstHeard(ops, o, k) :: k == n
  {
  }

  lemma CameJustNow(ops: seq<Op>, op: Op, r: Received)
    requires op.Arrives? && op.signed != Some(false)
    requires r == Received(op.hash, op.source, op.at, if op.signed.Some? then Verified else Unverified, true)
    ensures IsAsItCame(ops + [op], |ops|, r)
  {
    assert (ops + [op])[|ops|] == op;
    YesOrNo(op.signed);
  }

  ghost predicate Increasing(s: seq<nat>, end: nat) {
    (forall i, j | 0 <= i < j < |s| :: s[i] < s[j]) && forall i | 0 <= i < |s| :: s[i] < end
  }

  /** After any run: every message kept is one that came, none twice, in the order they came,
      believed as far as the keys heard say. */
  lemma {:induction false} EveryMessageIsAsItCame(ops: seq<Op>)
    ensures var kept, from := Run(EMPTY, ops).kept, Origins(ops);
            && |from| == |kept| && Increasing(from, |ops|)
            && forall i | 0 <= i < |kept| :: IsAsItCame(ops, from[i], kept[i])
    decreases |ops|
  {
    hide Step, IsAsItCame, Increasing, TakenIn;
    if ops == [] {
      NothingCame();
    } else {
      EveryMessageIsAsItCame(Before(ops));
      var op := ops[|ops| - 1];
      assert ops == Before(ops) + [op];
      if TakenIn(Run(EMPTY, Before(ops)), op) {
        OneMoreCame(Before(ops), op);
      } else {
        TheRestStay(Before(ops), op);
      }
    }
  }

  lemma NothingCame()
    ensures Run(EMPTY, []).kept == [] && Increasing([], 0)
  {
  }

  lemma OneMoreCame(ops: seq<Op>, op: Op)
    requires var kept, from := Run(EMPTY, ops).kept, Origins(ops);
             && |from| == |kept| && Increasing(from, |ops|)
             && forall i | 0 <= i < |kept| :: IsAsItCame(ops, from[i], kept[i])
    requires TakenIn(Run(EMPTY, ops), op)
    ensures var all := ops + [op]; var kept, from := Run(EMPTY, all).kept, Origins(all);
            && |from| == |kept| && Increasing(from, |all|)
            && forall i | 0 <= i < |kept| :: IsAsItCame(all, from[i], kept[i])
  {
    hide Increasing, IsAsItCame, Leaving, Without, Run, Origins;
    var all := ops + [op];
    var m, from := Run(EMPTY, ops), Origins(ops);
    TakenInIsLast(ops, op);
    var r := Run(EMPTY, all).kept[|Run(EMPTY, all).kept| - 1];
    CameJustNow(ops, op, r);
    var base := RoomAmong(m.kept, from);
    if |m.kept| == CAPACITY {
      RoomKeepsOrder(from, Leaving(m.kept), |ops|);
      OneFewer(m.kept, Leaving(m.kept));
    }
    OneMoreIncreasing(base, |ops|);
    forall i | 0 <= i < |Run(EMPTY, all).kept| ensures IsAsItCame(all, Origins(all)[i], Run(EMPTY, all).kept[i]) {
      if i < |base| {
        var j := if |m.kept| == CAPACITY then InWithout(m.kept, from, Leaving(m.kept), i) else i;
        StaysAsItCame(ops, op, from[j], m.kept[j], m.kept[j]);
      }
    }
  }

  lemma OneFewer(kept: seq<Received>, out: nat)
    requires out < |kept|
    ensures |Without(kept, out)| == |kept| - 1
  {
  }

  function InWithout(kept: seq<Received>, from: seq<nat>, out: nat, i: nat): (j: nat)
    requires out < |kept| == |from| && i < |kept| - 1
    ensures j < |kept| && Without(kept, out)[i] == kept[j] && Without(from, out)[i] == from[j]
  {
    if i < out then i else i + 1
  }

  lemma RoomKeepsOrder(from: seq<nat>, out: nat, end: nat)
    requires out < |from| && Increasing(from, end)
    ensures |Without(from, out)| == |from| - 1 && Increasing(Without(from, out), end)
  {
  }

  lemma OneMoreIncreasing(from: seq<nat>, end: nat)
    requires Increasing(from, end)
    ensures Increasing(from + [end], end + 1)
  {
  }

  lemma TakenInIsLast(ops: seq<Op>, op: Op)
    requires TakenIn(Run(EMPTY, ops), op)
    ensures var m, from, all := Run(EMPTY, ops), Origins(ops), ops + [op];
            && (Run(EMPTY, all).kept
                == (if |m.kept| == CAPACITY then Without(m.kept, Leaving(m.kept)) else m.kept)
                   + [Received(op.hash, op.source, op.at, if op.signed.Some? then Verified else Unverified, true)])
            && Origins(all) == RoomAmong(m.kept, from) + [|ops|]
  {
    hide Leaving, Without, Counted, TrustOf;
    assert Before(ops + [op]) == ops;
    YesOrNo(op.signed);
  }

  lemma TheRestStay(ops: seq<Op>, op: Op)
    requires var kept, from := Run(EMPTY, ops).kept, Origins(ops);
             && |from| == |kept| && Increasing(from, |ops|)
             && forall i | 0 <= i < |kept| :: IsAsItCame(ops, from[i], kept[i])
    requires !TakenIn(Run(EMPTY, ops), op)
    ensures var all := ops + [op]; var kept, from := Run(EMPTY, all).kept, Origins(all);
            && |from| == |kept| && Increasing(from, |all|)
            && forall i | 0 <= i < |kept| :: IsAsItCame(all, from[i], kept[i])
  {
    hide Leaving, Counted, TrustOf, IsAsItCame, Settled, MarkFirst, From;
    YesOrNo(if op.Arrives? then op.signed else None);
    var all := ops + [op];
    assert Before(all) == ops;
    var m, next := Run(EMPTY, ops), Run(EMPTY, all);
    forall i | 0 <= i < |m.kept| ensures IsAsItCame(all, Origins(ops)[i], next.kept[i]) {
      if op.Reads? {
        MarkFirstAt(m.kept, op.peer, op.through, i);
      }
      if op.Hears? {
        SettledIs(m.kept[i], op.sender, op.verifies);
      }
      assert next.kept[i].(unread := m.kept[i].unread)
          == if op.Hears? then Settled(m.kept[i], op.sender, op.verifies) else m.kept[i];
      StaysAsItCame(ops, op, Origins(ops)[i], m.kept[i], next.kept[i]);
    }
  }

  // ------------------------------------------------------------------- and the counters

  /** The hashes of the messages taken in, in order. */
  function Hashes(ops: seq<Op>): seq<Hash>
    decreases |ops|
  {
    if ops == [] then []
    else
      var last := ops[|ops| - 1];
      Hashes(Before(ops)) + if TakenIn(Run(EMPTY, Before(ops)), last) then [last.hash] else []
  }

  function Refusals(ops: seq<Op>): nat
    decreases |ops|
  {
    if ops == [] then 0
    else Refusals(Before(ops)) + if Refused(Run(EMPTY, Before(ops)), ops[|ops| - 1]) then 1 else 0
  }

  /** The hashes remembered are the last 64 taken in; and, each in 32 bits, as many messages
      have arrived as were taken in, as many been dropped as were taken in and are not kept,
      and as many forged as were refused. */
  lemma {:induction false} EveryMessageIsCounted(ops: seq<Op>)
    ensures var m, n := Run(EMPTY, ops), |Hashes(ops)|;
            && m.seen == Hashes(ops)[if n <= 64 then 0 else n - 64..]
            && |m.kept| <= 16 && |m.kept| <= n
            && m.arrived == Counted(n) && m.dropped == Counted(n - |m.kept|) && m.forged == Counted(Refusals(ops))
    decreases |ops|
  {
    hide Step, Counted, Run, Hashes, Refusals, TakenIn, Refused;
    if ops == [] {
      NoneCounted();
    } else {
      var m, op := Run(EMPTY, Before(ops)), ops[|ops| - 1];
      EveryMessageIsCounted(Before(ops));
      OneMoreOf(ops);
      OneMoreCounts(m, op, Hashes(Before(ops)), Refusals(Before(ops)));
    }
  }

  lemma OneMoreOf(ops: seq<Op>)
    requires ops != []
    ensures var m, op := Run(EMPTY, Before(ops)), ops[|ops| - 1];
            && Run(EMPTY, ops) == Step(m, op)
            && Hashes(ops) == Hashes(Before(ops)) + (if TakenIn(m, op) then [op.hash] else [])
            && Refusals(ops) == Refusals(Before(ops)) + if Refused(m, op) then 1 else 0
  {
    hide Step;
  }

  /** The counters count on, and the hashes remembered move on. */
  lemma OneMoreCounts(m: Store, op: Op, hashes: seq<Hash>, refused: nat)
    requires m.seen == hashes[if |hashes| <= 64 then 0 else |hashes| - 64..]
    requires |m.kept| <= 16 && |m.kept| <= |hashes|
    requires m.arrived == Counted(|hashes|) && m.dropped == Counted(|hashes| - |m.kept|) && m.forged == Counted(refused)
    ensures var next := Step(m, op);
            var more := hashes + if TakenIn(m, op) then [op.hash] else [];
            var n := |more|;
            && next.seen == more[if n <= 64 then 0 else n - 64..]
            && |next.kept| <= 16 && |next.kept| <= n
            && next.arrived == Counted(n) && next.dropped == Counted(n - |next.kept|)
            && next.forged == Counted(refused + if Refused(m, op) then 1 else 0)
  {
    hide Step, Counted;
    StepCounts(m, op);
    CountsAdd(|hashes|, 1);
    CountsAdd(|hashes| - |m.kept|, 1);
    CountsAdd(refused, 1);
    if TakenIn(m, op) {
      LastHashes(hashes, op.hash);
    } else {
      assert hashes + [] == hashes;
    }
  }

  lemma LastHashes(hashes: seq<Hash>, next: Hash)
    ensures var n := |hashes|;
            var seen := hashes[if n <= 64 then 0 else n - 64..];
            (if |seen| == SEEN then seen[1..] else seen) + [next]
            == (hashes + [next])[if n + 1 <= 64 then 0 else n + 1 - 64..]
  {
  }

  /** What one step does to what is counted. */
  lemma StepCounts(m: Store, op: Op)
    requires |m.kept| <= CAPACITY
    ensures var next, full := Step(m, op), |m.kept| == CAPACITY;
            if TakenIn(m, op) then
              && next.seen == (if |m.seen| == SEEN then m.seen[1..] else m.seen) + [op.hash]
              && |next.kept| == (if full then CAPACITY else |m.kept| + 1)
              && next.arrived == Counted(m.arrived + 1)
              && next.dropped == (if full then Counted(m.dropped + 1) else m.dropped) && next.forged == m.forged
            else
              && next.seen == m.seen && |next.kept| == |m.kept| && next.arrived == m.arrived
              && next.dropped == m.dropped
              && next.forged == if Refused(m, op) then Counted(m.forged + 1) else m.forged
  {
    hide Leaving, TrustOf, MarkFirst, SettleAll, Counted;
  }

  lemma NoneCounted()
    ensures Counted(0) == 0 && Run(EMPTY, []) == EMPTY && Hashes([]) == [] && Refusals([]) == 0
  {
  }
}
