/** Reading a thread: `Station::read` counts the messages received among the first `through`
    of the merged conversation, and makes that many of the peer's messages read, in the
    order the store holds them. When those are the ones that were shown. */
module ReadingLaws {
  import opened Messages
  import opened StableSort
  import opened Station

  /** The message at `i` in the store was on the panel. */
  ghost predicate WasShown(kept: seq<Received>, outbox: seq<Sent>, peer: Address, through: nat, i: nat) {
    exists e | e in Shown(kept, outbox, peer, through) :: e.index == i
  }

  /** The message at `i` in the store is among those made read. */
  ghost predicate IsMarked(kept: seq<Received>, outbox: seq<Sent>, peer: Address, through: nat, i: nat) {
    i < |kept| && kept[i].source == peer && From(kept[..i], peer) < |Shown(kept, outbox, peer, through)|
  }

  /** What `peer` sent is held in the order it came. */
  ghost predicate PeerInOrder(kept: seq<Received>, peer: Address) {
    forall i, j | 0 <= i < j < |kept| && kept[i].source == peer && kept[j].source == peer :: kept[i].at <= kept[j].at
  }

  function Position(e: Entry): int { e.index }

  // -------------------------------------------------------------- the peer's messages

  /** The entries are the peer's messages, one each, in store order. */
  lemma EntriesAre(kept: seq<Received>, peer: Address)
    ensures var entries := EntriesFrom(kept, peer);
            && (forall j | 0 <= j < |entries| ::
                  && entries[j].received && entries[j].index < |kept|
                  && kept[entries[j].index].source == peer && kept[entries[j].index].at == entries[j].at
                  && From(kept[..entries[j].index], peer) == j)
            && (forall i | 0 <= i < |kept| && kept[i].source == peer ::
                  From(kept[..i], peer) < |entries| && entries[From(kept[..i], peer)].index == i)
            && (forall j, k | 0 <= j < k < |entries| :: Position(entries[j]) < Position(entries[k]))
  {
    hide EntriesFrom, From;
    var entries := EntriesFrom(kept, peer);
    forall j | 0 <= j < |entries|
      ensures && entries[j].received && entries[j].index < |kept|
              && kept[entries[j].index].source == peer && kept[entries[j].index].at == entries[j].at
              && From(kept[..entries[j].index], peer) == j
    {
      EntryIsAMessage(kept, peer, j);
    }
    forall i | 0 <= i < |kept| && kept[i].source == peer
      ensures From(kept[..i], peer) < |entries| && entries[From(kept[..i], peer)].index == i
    {
      MessageHasAnEntry(kept, peer, i);
    }
    EntriesRise(kept, peer);
  }

  lemma {:induction false} EntryIsAMessage(kept: seq<Received>, peer: Address, j: nat)
    requires j < |EntriesFrom(kept, peer)|
    ensures var e := EntriesFrom(kept, peer)[j];
            && e.received && e.index < |kept| && kept[e.index].source == peer && kept[e.index].at == e.at
            && From(kept[..e.index], peer) == j
  {
    hide EntriesFrom, From;
    if kept == [] {
      NoEntries(peer);
    } else {
      var most, last := kept[..|kept| - 1], kept[|kept| - 1];
      assert kept == most + [last];
      OneMoreEntry(most, last, peer);
      if j < |EntriesFrom(most, peer)| {
        EntryIsAMessage(most, peer, j);
        var i := EntriesFrom(most, peer)[j].index;
        assert most[..i] == kept[..i];
      } else {
        assert kept[..|most|] == most;
      }
    }
  }

  lemma {:induction false} MessageHasAnEntry(kept: seq<Received>, peer: Address, i: nat)
    requires i < |kept| && kept[i].source == peer
    ensures From(kept[..i], peer) < |EntriesFrom(kept, peer)|
    ensures EntriesFrom(kept, peer)[From(kept[..i], peer)].index == i
  {
    hide EntriesFrom, From;
    var most, last := kept[..|kept| - 1], kept[|kept| - 1];
    assert kept == most + [last];
    OneMoreEntry(most, last, peer);
    if i < |most| {
      MessageHasAnEntry(most, peer, i);
      assert most[..i] == kept[..i];
    }
  }

  lemma {:induction false} EntriesRise(kept: seq<Received>, peer: Address)
    ensures var entries := EntriesFrom(kept, peer);
            forall j, k | 0 <= j < k < |entries| :: Position(entries[j]) < Position(entries[k])
  {
    hide EntriesFrom, From;
    if kept == [] {
      NoEntries(peer);
    } else {
      var most, last := kept[..|kept| - 1], kept[|kept| - 1];
      assert kept == most + [last];
      OneMoreEntry(most, last, peer);
      EntriesRise(most, peer);
      forall j | 0 <= j < |EntriesFrom(most, peer)| ensures EntriesFrom(most, peer)[j].index < |most| {
        EntryIsAMessage(most, peer, j);
      }
    }
  }

  lemma NoEntries(peer: Address)
    ensures EntriesFrom([], peer) == []
  {
  }

  lemma OneMoreEntry(kept: seq<Received>, last: Received, peer: Address)
    ensures EntriesFrom(kept + [last], peer)
         == EntriesFrom(kept, peer) + if last.source == peer then [Entry(last.at, true, |kept|)] else []
  {
    assert (kept + [last])[..|kept|] == kept;
  }

  lemma {:induction false} EntriesToAreSent(outbox: seq<Sent>, peer: Address)
    ensures forall e | e in EntriesTo(outbox, peer) :: !e.received
  {
    if outbox != [] {
      EntriesToAreSent(outbox[..|outbox| - 1], peer);
    }
  }

  lemma PositionsRise(entries: seq<Entry>, a: nat, b: nat)
    requires forall j, k | 0 <= j < k < |entries| :: Position(entries[j]) < Position(entries[k])
    requires a < |entries| && b < |entries| && entries[a].index < entries[b].index
    ensures a < b
  {
  }

  lemma OrderOfEntries(kept: seq<Received>, peer: Address)
    ensures Ordered(EntriesFrom(kept, peer), When) <==> PeerInOrder(kept, peer)
  {
    hide From, EntriesFrom;
    var entries := EntriesFrom(kept, peer);
    EntriesAre(kept, peer);
    if Ordered(entries, When) {
      forall i, j | 0 <= i < j < |kept| && kept[i].source == peer && kept[j].source == peer
        ensures kept[i].at <= kept[j].at
      {
        var a, b := From(kept[..i], peer), From(kept[..j], peer);
        assert entries[a].index == i && entries[b].index == j;
        PositionsRise(entries, a, b);
        assert When(entries[a]) <= When(entries[b]);
      }
    }
    if PeerInOrder(kept, peer) {
      forall a, b | 0 <= a < b < |entries| ensures When(entries[a]) <= When(entries[b]) {
        assert Position(entries[a]) < Position(entries[b]);
      }
    }
  }

  // --------------------------------------------------------------------- the thread

  /** Of the thread, what was received is the peer's messages sorted by time. */
  lemma ThreadReceives(kept: seq<Received>, outbox: seq<Sent>, peer: Address)
    ensures Filter(Thread(kept, outbox, peer), IsReceived) == Sorted(EntriesFrom(kept, peer), When)
  {
    hide EntriesFrom, EntriesTo, Filter, Sorted;
    var from, to := EntriesFrom(kept, peer), EntriesTo(outbox, peer);
    SortingKeepsOrder(from + to, When, IsReceived);
    FilterConcat(from, to, IsReceived);
    EntriesAre(kept, peer);
    EntriesToAreSent(outbox, peer);
    FilterAllOrNone(from, IsReceived);
    FilterAllOrNone(to, IsReceived);
    assert from + [] == from;
  }

  /** What was shown of the peer's messages is the first of them by time. */
  lemma ShownAreTheFirst(kept: seq<Received>, outbox: seq<Sent>, peer: Address, through: nat)
    ensures Shown(kept, outbox, peer, through) <= Sorted(EntriesFrom(kept, peer), When)
    ensures |Sorted(EntriesFrom(kept, peer), When)| == |EntriesFrom(kept, peer)|
  {
    hide EntriesFrom, Thread, Filter, Sorted;
    var thread := Thread(kept, outbox, peer);
    ThreadReceives(kept, outbox, peer);
    assert thread[..|thread|] == thread;
    FilterOfPrefix(thread, if through <= |thread| then through else |thread|, IsReceived);
    SortedIsOrdered(EntriesFrom(kept, peer), When);
    assert |multiset(Sorted(EntriesFrom(kept, peer), When))| == |multiset(EntriesFrom(kept, peer))|;
  }

  /** With the peer's messages in time order, what is marked is what was shown. */
  lemma InOrderMarksWhatWasShown(kept: seq<Received>, outbox: seq<Sent>, peer: Address, through: nat, i: nat)
    requires PeerInOrder(kept, peer)
    ensures IsMarked(kept, outbox, peer, through, i) <==> WasShown(kept, outbox, peer, through, i)
  {
    hide EntriesFrom, Shown, From, Sorted, Ordered, PeerInOrder;
    var entries, shown := EntriesFrom(kept, peer), Shown(kept, outbox, peer, through);
    OrderOfEntries(kept, peer);
    OrderedIsSorted(entries, When);
    ShownAreTheFirst(kept, outbox, peer, through);
    EntriesAre(kept, peer);
    if IsMarked(kept, outbox, peer, through, i) {
      assert shown[From(kept[..i], peer)] in shown;
    }
    if WasShown(kept, outbox, peer, through, i) {
      var j :| 0 <= j < |shown| && shown[j].index == i;
      assert entries[j] == shown[j];
    }
  }

  /** `MarkFirst` clears exactly those marked. */
  lemma MarksAre(kept: seq<Received>, outbox: seq<Sent>, peer: Address, through: nat, i: nat)
    requires i < |kept|
    ensures var read := MarkFirst(kept, peer, |Shown(kept, outbox, peer, through)|);
            |read| == |kept|
            && read[i] == if IsMarked(kept, outbox, peer, through, i) then kept[i].(unread := false) else kept[i]
  {
    hide MarkFirst, From, Shown;
    MarkFirstAt(kept, peer, |Shown(kept, outbox, peer, through)|, i);
  }

  ghost predicate MarksAreRight(kept: seq<Received>, outbox: seq<Sent>, peer: Address) {
    forall through: nat, i: nat ::
      IsMarked(kept, outbox, peer, through, i) <==> WasShown(kept, outbox, peer, through, i)
  }

  /** Show just enough for the first `c` by time, and the last of them is marked: it is one
      of the first `c` in the store. */
  lemma LastShownIsMarked(kept: seq<Received>, outbox: seq<Sent>, peer: Address, c: nat)
    requires MarksAreRight(kept, outbox, peer)
    requires 0 < c <= |Sorted(EntriesFrom(kept, peer), When)|
    ensures var last := Sorted(EntriesFrom(kept, peer), When)[c - 1];
            last.index < |kept| && From(kept[..last.index], peer) < c
  {
    hide EntriesFrom, Thread, From, Sorted, Filter;
    var thread, sorted := Thread(kept, outbox, peer), Sorted(EntriesFrom(kept, peer), When);
    ThreadReceives(kept, outbox, peer);
    var through := EveryPrefixIsReached(thread, c, IsReceived);
    ShownAreTheFirst(kept, outbox, peer, through);
    var last := sorted[c - 1];
    assert Shown(kept, outbox, peer, through)[c - 1] == last;
    assert WasShown(kept, outbox, peer, through, last.index);
    assert IsMarked(kept, outbox, peer, through, last.index);
  }

  /** If marking is right however far is shown, sorting the peer's messages moves none. */
  lemma {:induction false} RightMarksFixTheOrder(kept: seq<Received>, outbox: seq<Sent>, peer: Address, c: nat)
    requires MarksAreRight(kept, outbox, peer)
    requires c <= |EntriesFrom(kept, peer)| == |Sorted(EntriesFrom(kept, peer), When)|
    ensures Sorted(EntriesFrom(kept, peer), When)[..c] == EntriesFrom(kept, peer)[..c]
  {
    hide EntriesFrom, From, Sorted, Ranked, MarksAreRight;
    if c > 0 {
      var entries, sorted := EntriesFrom(kept, peer), Sorted(EntriesFrom(kept, peer), When);
      RightMarksFixTheOrder(kept, outbox, peer, c - 1);
      LastShownIsMarked(kept, outbox, peer, c);
      EntriesAre(kept, peer);
      SortedKeepsRank(entries, When, Position);
      assert sorted[c - 1] in sorted;
      var m :| 0 <= m < |entries| && entries[m] == sorted[c - 1];
      assert m == From(kept[..entries[m].index], peer) < c;
      NextInPlace(entries, sorted, c - 1, m);
    }
  }

  lemma NextInPlace(entries: seq<Entry>, sorted: seq<Entry>, c: nat, m: nat)
    requires Ranked(sorted, When, Position) && c < |sorted| == |entries| && sorted[..c] == entries[..c]
    requires m <= c && entries[m] == sorted[c]
    ensures sorted[..c + 1] == entries[..c + 1]
  {
    Distinct(sorted);
    forall k | 0 <= k < c ensures entries[k] == sorted[k] {
      assert sorted[..c][k] == entries[..c][k];
    }
  }

  lemma Distinct(s: seq<Entry>)
    requires Ranked(s, When, Position)
    ensures forall i, j | 0 <= i < j < |s| :: s[i] != s[j]
  {
  }

  /** The exact condition: reading makes read just what was shown, however far that is, if
      and only if the store holds the peer's messages in the order they came. */
  lemma {:induction false} MarkingIsRightIffInOrder(kept: seq<Received>, outbox: seq<Sent>, peer: Address)
    ensures MarksAreRight(kept, outbox, peer) <==> PeerInOrder(kept, peer)
  {
    hide IsMarked, WasShown, EntriesFrom, Sorted, PeerInOrder, Ordered;
    if PeerInOrder(kept, peer) {
      forall through: nat, i: nat
        ensures IsMarked(kept, outbox, peer, through, i) <==> WasShown(kept, outbox, peer, through, i)
      {
        InOrderMarksWhatWasShown(kept, outbox, peer, through, i);
      }
    }
    if MarksAreRight(kept, outbox, peer) {
      var entries, sorted := EntriesFrom(kept, peer), Sorted(EntriesFrom(kept, peer), When);
      ShownAreTheFirst(kept, outbox, peer, 0);
      RightMarksFixTheOrder(kept, outbox, peer, |entries|);
      assert sorted[..|entries|] == sorted && entries[..|entries|] == entries;
      SortedIsOrdered(entries, When);
      OrderOfEntries(kept, peer);
    }
  }

  /** And so over every run of the store on a clock that does not go back, whatever was sent:
      reading through the first `through` makes read those of them that were received, and
      changes nothing else. */
  lemma {:induction false} ReadingMarksWhatWasShown(ops: seq<Op>, outbox: seq<Sent>, peer: Address, through: nat)
    requires ClockRuns(ops)
    ensures var kept := Run(EMPTY, ops).kept;
            var read := MarkFirst(kept, peer, |Shown(kept, outbox, peer, through)|);
            |read| == |kept|
            && forall i | 0 <= i < |kept| :: read[i] ==
                 if WasShown(kept, outbox, peer, through, i) then kept[i].(unread := false) else kept[i]
  {
    hide Run, MarkFirst, Shown, WasShown, IsMarked;
    var kept := Run(EMPTY, ops).kept;
    RunsStayInTimeOrder(ops);
    forall i | 0 <= i < |kept|
      ensures MarkFirst(kept, peer, |Shown(kept, outbox, peer, through)|)[i]
           == if WasShown(kept, outbox, peer, through, i) then kept[i].(unread := false) else kept[i]
    {
      InOrderMarksWhatWasShown(kept, outbox, peer, through, i);
      MarksAre(kept, outbox, peer, through, i);
    }
  }
}
