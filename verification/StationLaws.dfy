/** What the conversation list says, and what reading a thread marks. */
module StationLaws {
  import opened Numbers
  import opened Results
  import opened Messages
  import opened StableSort
  import opened Station

  // -------------------------------------------------------------------- the list

  /** A message with `peer`, either way, is kept, and came or was written at `at`. */
  ghost predicate Spoke(notes: seq<Row>, peer: Address, at: nat) {
    exists n | n in notes :: n.peer == peer && n.at == at
  }

  ghost predicate HasUnread(notes: seq<Row>, peer: Address) {
    exists n | n in notes :: n.peer == peer && n.unread
  }

  /** Dated by the newest message either way, and unread if anything from the peer is. */
  ghost predicate RowIsRight(row: Row, notes: seq<Row>) {
    && Spoke(notes, row.peer, row.at)
    && (forall at: nat | Spoke(notes, row.peer, at) :: at <= row.at)
    && (row.unread <==> HasUnread(notes, row.peer))
  }

  /** One right row for each peer, in the order the peers first came up. */
  ghost predicate Tabulates(rows: seq<Row>, notes: seq<Row>) {
    && (forall row | row in rows :: RowIsRight(row, notes))
    && (forall n | n in notes :: exists row | row in rows :: row.peer == n.peer)
    && (forall i, j | 0 <= i < j < |rows| :: IndexOf(notes, rows[i].peer) < IndexOf(notes, rows[j].peer))
  }

  lemma OneMoreNote(notes: seq<Row>, n: Row, peer: Address)
    ensures IndexOf(notes, peer) < |notes| ==> IndexOf(notes + [n], peer) == IndexOf(notes, peer)
    ensures IndexOf(notes, peer) == |notes| && n.peer == peer ==> IndexOf(notes + [n], peer) == |notes|
    ensures forall at: nat :: Spoke(notes + [n], peer, at) <==> Spoke(notes, peer, at) || (n.peer == peer && n.at == at)
    ensures HasUnread(notes + [n], peer) <==> HasUnread(notes, peer) || (n.peer == peer && n.unread)
  {
    var more := notes + [n];
    assert forall m :: m in more <==> m in notes || m == n;
    assert forall i | 0 <= i < |notes| :: more[i] == notes[i];
    assert more[|notes|] == n;
  }

  lemma RowOfAnother(row: Row, notes: seq<Row>, n: Row)
    requires RowIsRight(row, notes) && row.peer != n.peer
    ensures RowIsRight(row, notes + [n])
  {
    hide Spoke, HasUnread, IndexOf;
    OneMoreNote(notes, n, row.peer);
  }

  lemma RowUpdated(row: Row, notes: seq<Row>, n: Row)
    requires RowIsRight(row, notes) && row.peer == n.peer
    ensures RowIsRight(Row(n.peer, Max(row.at, n.at), row.unread || n.unread), notes + [n])
  {
    hide Spoke, HasUnread, IndexOf;
    OneMoreNote(notes, n, row.peer);
  }

  lemma RowAdded(notes: seq<Row>, n: Row)
    requires IndexOf(notes, n.peer) == |notes|
    ensures RowIsRight(n, notes + [n])
  {
    OneMoreNote(notes, n, n.peer);
  }

  lemma RightRowsComeUp(row: Row, notes: seq<Row>)
    requires RowIsRight(row, notes)
    ensures IndexOf(notes, row.peer) < |notes|
  {
  }

  lemma NewPeersComeUpLast(rows: seq<Row>, notes: seq<Row>, peer: Address)
    requires Tabulates(rows, notes)
    ensures IndexOf(rows, peer) == |rows| ==> IndexOf(notes, peer) == |notes|
  {
    hide RowIsRight;
    if IndexOf(notes, peer) < |notes| {
      assert notes[IndexOf(notes, peer)] in notes;
    }
  }

  lemma NotedTabulates(rows: seq<Row>, notes: seq<Row>, n: Row)
    requires Tabulates(rows, notes)
    ensures Tabulates(Noted(rows, n), notes + [n])
  {
    hide RowIsRight, IndexOf, Tabulates, Noted;
    NewPeersComeUpLast(rows, notes, n.peer);
    NotedRowsAreRight(rows, notes, n);
    NotedMisses(rows, notes, n);
    NotedKeepsOrder(rows, notes, n);
    AllThree(Noted(rows, n), notes + [n]);
  }

  lemma AllThree(rows: seq<Row>, notes: seq<Row>)
    requires forall j | 0 <= j < |rows| :: RowIsRight(rows[j], notes)
    requires forall n | n in notes :: exists row | row in rows :: row.peer == n.peer
    requires forall i, j | 0 <= i < j < |rows| :: IndexOf(notes, rows[i].peer) < IndexOf(notes, rows[j].peer)
    ensures Tabulates(rows, notes)
  {
    hide RowIsRight, IndexOf;
  }

  lemma NotedRowsAreRight(rows: seq<Row>, notes: seq<Row>, n: Row)
    requires Tabulates(rows, notes) && (IndexOf(rows, n.peer) == |rows| ==> IndexOf(notes, n.peer) == |notes|)
    ensures forall j | 0 <= j < |Noted(rows, n)| :: RowIsRight(Noted(rows, n)[j], notes + [n])
  {
    hide RowIsRight, IndexOf;
    var next, i := Noted(rows, n), IndexOf(rows, n.peer);
    if i == |rows| {
      RowAdded(notes, n);
    }
    forall j | 0 <= j < |next| ensures RowIsRight(next[j], notes + [n]) {
      if j < |rows| {
        assert rows[j] in rows;
        if rows[j].peer == n.peer {
          SamePeerSameRow(rows, notes, i, j);
          RowUpdated(rows[j], notes, n);
        } else {
          RowOfAnother(rows[j], notes, n);
        }
      }
    }
  }

  /** No note is without its row. */
  lemma NotedMisses(rows: seq<Row>, notes: seq<Row>, n: Row)
    requires Tabulates(rows, notes)
    ensures forall m | m in notes + [n] :: exists row | row in Noted(rows, n) :: row.peer == m.peer
  {
    hide RowIsRight, IndexOf;
    var next, i := Noted(rows, n), IndexOf(rows, n.peer);
    forall m | m in notes + [n] ensures exists row | row in next :: row.peer == m.peer {
      if m in notes {
        var row :| row in rows && row.peer == m.peer;
        var j :| 0 <= j < |rows| && rows[j] == row;
        assert next[j] in next;
      } else {
        assert next[i] in next;
      }
    }
  }

  lemma NotedKeepsOrder(rows: seq<Row>, notes: seq<Row>, n: Row)
    requires Tabulates(rows, notes) && (IndexOf(rows, n.peer) == |rows| ==> IndexOf(notes, n.peer) == |notes|)
    ensures var next := Noted(rows, n);
            forall i, j | 0 <= i < j < |next| ::
              IndexOf(notes + [n], next[i].peer) < IndexOf(notes + [n], next[j].peer)
  {
    hide RowIsRight, IndexOf;
    forall j | 0 <= j < |rows|
      ensures IndexOf(notes + [n], rows[j].peer) == IndexOf(notes, rows[j].peer) < |notes|
    {
      assert rows[j] in rows;
      RightRowsComeUp(rows[j], notes);
      OneMoreNote(notes, n, rows[j].peer);
    }
    OneMoreNote(notes, n, n.peer);
  }

  lemma SamePeerSameRow(rows: seq<Row>, notes: seq<Row>, i: nat, j: nat)
    requires Tabulates(rows, notes) && i < |rows| && j < |rows| && rows[i].peer == rows[j].peer
    ensures i == j
  {
    hide IndexOf, RowIsRight;
  }

  lemma NothingTabulates()
    ensures Rows([]) == [] && Tabulates([], [])
  {
  }

  lemma {:induction false} RowsTabulate(notes: seq<Row>)
    ensures Tabulates(Rows(notes), notes)
  {
    hide Tabulates, Noted, Rows;
    if notes == [] {
      NothingTabulates();
    } else {
      var most := notes[..|notes| - 1];
      RowsTabulate(most);
      NotedTabulates(Rows(most), most, notes[|notes| - 1]);
      OneMoreRow(notes, |most|);
      assert notes == most + [notes[|most|]] && notes[..|most| + 1] == notes;
    }
  }

  /** `a` belongs above `b`: newer, or as new and first to come up. */
  ghost predicate Above(a: Row, b: Row, notes: seq<Row>) {
    a.at > b.at || (a.at == b.at && IndexOf(notes, a.peer) < IndexOf(notes, b.peer))
  }

  /** The list, for any messages kept: every row is right; each is above the next, so no
      peer is listed twice; and a peer who spoke is listed, or the list is full of peers
      who belong above it. */
  lemma {:induction false} TheListIsRight(kept: seq<Received>, outbox: seq<Sent>)
    ensures var notes := Notes(kept, outbox); var listed := Listed(notes);
            && (forall row | row in listed :: RowIsRight(row, notes))
            && (forall i, j | 0 <= i < j < |listed| :: Above(listed[i], listed[j], notes))
            && (forall n | n in notes :: (exists row | row in listed :: row.peer == n.peer)
                  || (|listed| == CONVERSATIONS
                      && exists out: Row | out.peer == n.peer && RowIsRight(out, notes) ::
                           forall row | row in listed :: Above(row, out, notes)))
  {
    hide RowIsRight, IndexOf, Rows, Sorted;
    var notes := Notes(kept, outbox);
    var rows, listed := Rows(notes), Listed(notes);
    var all := Sorted(rows, Newness);
    RowsTabulate(notes);
    var rank := (row: Row) => IndexOf(notes, row.peer);
    SortedKeepsRank(rows, Newness, rank);
    assert forall i, j | 0 <= i < j < |all| :: Above(all[i], all[j], notes);
    forall n | n in notes && !exists row | row in listed :: row.peer == n.peer
      ensures |listed| == CONVERSATIONS
              && exists out: Row | out.peer == n.peer && RowIsRight(out, notes) ::
                   forall row | row in listed :: Above(row, out, notes)
    {
      var out :| out in rows && out.peer == n.peer;
      var k :| 0 <= k < |all| && all[k] == out;
      assert k >= CONVERSATIONS;
      assert forall row | row in listed :: Above(row, out, notes);
    }
  }

  /** What the panel draws of a row: the peer, whether anything is unread, and how long ago in
      whole seconds, as far as 32 bits go; no age for what is dated later than now. */
  lemma DrawnIsRight(row: Row, now: nat)
    ensures var drawn := Drawn(row, now);
            && drawn.peer == row.peer && drawn.unread == row.unread
            && (drawn.age.None? <==> row.at > now)
            && (drawn.age.Some? && drawn.age.value < U32_MAX ==>
                  row.at + 1_000 * drawn.age.value <= now < row.at + 1_000 * drawn.age.value + 1_000)
            && (drawn.age.Some? ==> drawn.age.value <= U32_MAX)
            && (drawn.age == Some(U32_MAX) ==> row.at + 1_000 * U32_MAX <= now)
  {
  }
}
