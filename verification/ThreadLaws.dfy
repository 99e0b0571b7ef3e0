/** A thread is the whole of a conversation: everything kept that came from the peer, everything
    in the outbox that went to it, each once, by time. */
module ThreadLaws {
  import opened Messages
  import opened StableSort
  import opened Station
  import opened ReadingLaws

  /** The entry stands for a message: one kept and from the peer, or one sent to it. */
  predicate Belongs(e: Entry, kept: seq<Received>, outbox: seq<Sent>, peer: Address) {
    if e.received then e.index < |kept| && kept[e.index].source == peer && kept[e.index].at == e.at
    else e.index < |outbox| && outbox[e.index].destination == peer && outbox[e.index].at == e.at
  }

  /** Above or below, of two entries of the same time: received above sent, and of one kind the
      one kept longer above. */
  function Rank(e: Entry, kept: seq<Received>): int { if e.received then e.index else |kept| + e.index }

  predicate Rises(entries: seq<Entry>) {
    forall j, k | 0 <= j < k < |entries| :: entries[j].index < entries[k].index
  }

  lemma {:induction false} EntriesToAre(outbox: seq<Sent>, peer: Address)
    ensures forall e | e in EntriesTo(outbox, peer) :: !e.received && Belongs(e, [], outbox, peer)
    ensures forall i | 0 <= i < |outbox| && outbox[i].destination == peer ::
              Entry(outbox[i].at, false, i) in EntriesTo(outbox, peer)
    ensures Rises(EntriesTo(outbox, peer))
  {
    if outbox != [] {
      var most, last := outbox[..|outbox| - 1], outbox[|outbox| - 1];
      var before := EntriesTo(most, peer);
      EntriesToAre(most, peer);
      assert EntriesTo(outbox, peer)
          == before + if last.destination == peer then [Entry(last.at, false, |most|)] else [];
      forall j | 0 <= j < |before| ensures before[j].index < |most| && Belongs(before[j], [], outbox, peer) {
        assert Belongs(before[j], [], most, peer) && !before[j].received;
      }
    }
  }

  lemma EntriesFromAre(kept: seq<Received>, peer: Address)
    ensures forall e | e in EntriesFrom(kept, peer) :: e.received && Belongs(e, kept, [], peer)
    ensures forall i | 0 <= i < |kept| && kept[i].source == peer ::
              Entry(kept[i].at, true, i) in EntriesFrom(kept, peer)
    ensures Rises(EntriesFrom(kept, peer))
  {
    hide EntriesFrom, From;
    EntriesAre(kept, peer);
    var from := EntriesFrom(kept, peer);
    forall j, k | 0 <= j < k < |from| ensures from[j].index < from[k].index {
      assert Position(from[j]) < Position(from[k]);
    }
    forall i | 0 <= i < |kept| && kept[i].source == peer ensures Entry(kept[i].at, true, i) in from {
      assert from[From(kept[..i], peer)] == Entry(kept[i].at, true, i);
    }
  }

  lemma RanksRise(from: seq<Entry>, to: seq<Entry>, kept: seq<Received>)
    requires forall e | e in from :: e.received && e.index < |kept|
    requires forall e | e in to :: !e.received
    requires Rises(from) && Rises(to)
    ensures forall i, j | 0 <= i < j < |from + to| :: Rank((from + to)[i], kept) < Rank((from + to)[j], kept)
  {
  }

  /** The thread: an entry for each message from the peer and each to it, and for nothing else;
      by time; at one time the received first; and none twice. */
  lemma {:induction false} TheThreadIsTheConversation(kept: seq<Received>, outbox: seq<Sent>, peer: Address)
    ensures var thread := Thread(kept, outbox, peer);
            && (forall e :: e in thread <==> Belongs(e, kept, outbox, peer))
            && (forall i, j | 0 <= i < j < |thread| ::
                  thread[i].at < thread[j].at
                  || (thread[i].at == thread[j].at && Rank(thread[i], kept) < Rank(thread[j], kept)))
  {
    hide Sorted, EntriesFrom, EntriesTo;
    var from, to := EntriesFrom(kept, peer), EntriesTo(outbox, peer);
    var all, rank := from + to, (e: Entry) => Rank(e, kept);
    EntriesFromAre(kept, peer);
    EntriesToAre(outbox, peer);
    RanksRise(from, to, kept);
    assert forall i, j | 0 <= i < j < |all| :: rank(all[i]) < rank(all[j]);
    SortedKeepsRank(all, When, rank);
    forall e ensures e in all <==> Belongs(e, kept, outbox, peer) {
      EntryIs(e, kept, outbox, peer);
    }
    forall i, j | 0 <= i < j < |Sorted(all, When)|
      ensures var a, b := Sorted(all, When)[i], Sorted(all, When)[j];
              a.at < b.at || (a.at == b.at && Rank(a, kept) < Rank(b, kept))
    {
      assert When(Sorted(all, When)[i]) <= When(Sorted(all, When)[j]);
    }
  }

  lemma EntryIs(e: Entry, kept: seq<Received>, outbox: seq<Sent>, peer: Address)
    ensures e in EntriesFrom(kept, peer) + EntriesTo(outbox, peer) <==> Belongs(e, kept, outbox, peer)
  {
    hide EntriesFrom, EntriesTo;
    EntriesFromAre(kept, peer);
    EntriesToAre(outbox, peer);
    if Belongs(e, kept, outbox, peer) {
      assert e == Entry(e.at, e.received, e.index);
    }
  }
}
