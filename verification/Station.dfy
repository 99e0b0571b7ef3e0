/** The conversations of `core/src/node.rs`: what the board has received and what it has
    sent, put together. */
module Station {
  import opened Numbers
  import opened Results
  import opened Messages
  import opened StableSort

  const CONVERSATIONS := 16

  /** A message the board sent: to whom, and when it was written. */
  datatype Sent = Sent(destination: Address, at: nat)

  // -------------------------------------------------------------------- the list

  /** A peer, when, and whether that is unread: of one message, either way, and of a whole
      conversation. */
  datatype Row = Row(peer: Address, at: nat, unread: bool)

  datatype ConversationRow = ConversationRow(peer: Address, unread: bool, age: Option<nat>)

  function NotesReceived(kept: seq<Received>): (notes: seq<Row>)
    ensures |notes| == |kept|
  {
    seq(|kept|, i requires 0 <= i < |kept| => Row(kept[i].source, kept[i].at, kept[i].unread))
  }

  function NotesSent(outbox: seq<Sent>): (notes: seq<Row>)
    ensures |notes| == |outbox|
  {
    seq(|outbox|, i requires 0 <= i < |outbox| => Row(outbox[i].destination, outbox[i].at, false))
  }

  /** Everything kept, in the order the list is made: received, then sent. */
  function Notes(kept: seq<Received>, outbox: seq<Sent>): seq<Row> { NotesReceived(kept) + NotesSent(outbox) }

  /** The row for `peer`, or the end. */
  function IndexOf(rows: seq<Row>, peer: Address): (i: nat)
    ensures i <= |rows| && (i < |rows| ==> rows[i].peer == peer)
    ensures forall j | 0 <= j < i :: rows[j].peer != peer
  {
    if rows == [] || rows[0].peer == peer then 0 else 1 + IndexOf(rows[1..], peer)
  }

  function Noted(rows: seq<Row>, n: Row): seq<Row> {
    var i := IndexOf(rows, n.peer);
    if i < |rows| then rows[i := Row(n.peer, Max(rows[i].at, n.at), rows[i].unread || n.unread)]
    else rows + [n]
  }

  function Rows(notes: seq<Row>): seq<Row> {
    if notes == [] then [] else Noted(Rows(notes[..|notes| - 1]), notes[|notes| - 1])
  }

  /** `sort_by_key(Reverse(at))`: ascending in this. */
  function Newness(row: Row): int { 0 - row.at }

  function Listed(notes: seq<Row>): (listed: seq<Row>)
    ensures |listed| <= CONVERSATIONS
  {
    var all := Sorted(Rows(notes), Newness);
    if |all| <= CONVERSATIONS then all else all[..CONVERSATIONS]
  }

  /** Whole seconds since; none if it is yet to come. */
  function Age(at: nat, now: nat): Option<nat> {
    if now < at then None
    else Some(Min((now - at) / 1_000, U32_MAX))
  }

  function Drawn(row: Row, now: nat): ConversationRow { ConversationRow(row.peer, row.unread, Age(row.at, now)) }

  // ------------------------------------------------------------------- the thread

  /** A message in a thread: when, which way, and which of those kept it draws. */
  datatype Entry = Entry(at: nat, received: bool, index: nat)

  function EntriesFrom(kept: seq<Received>, peer: Address): (entries: seq<Entry>)
    ensures |entries| == From(kept, peer)
  {
    if kept == [] then []
    else
      var last := kept[|kept| - 1];
      EntriesFrom(kept[..|kept| - 1], peer)
      + if last.source == peer then [Entry(last.at, true, |kept| - 1)] else []
  }

  function EntriesTo(outbox: seq<Sent>, peer: Address): seq<Entry> {
    if outbox == [] then []
    else
      var last := outbox[|outbox| - 1];
      EntriesTo(outbox[..|outbox| - 1], peer)
      + if last.destination == peer then [Entry(last.at, false, |outbox| - 1)] else []
  }

  function When(e: Entry): int { e.at }

  /** All that passed between the board and `peer`, by time. */
  function Thread(kept: seq<Received>, outbox: seq<Sent>, peer: Address): seq<Entry> {
    Sorted(EntriesFrom(kept, peer) + EntriesTo(outbox, peer), When)
  }

  function Take<T>(s: seq<T>, n: nat): seq<T> { if n <= |s| then s[..n] else s }

  function IsReceived(e: Entry): bool { e.received }

  /** The messages received among the first `through` of the thread. */
  function Shown(kept: seq<Received>, outbox: seq<Sent>, peer: Address, through: nat): seq<Entry> {
    Filter(Take(Thread(kept, outbox, peer), through), IsReceived)
  }

  lemma NotesAre(kept: seq<Received>, outbox: seq<Sent>)
    ensures var notes := Notes(kept, outbox);
            && |notes| == |kept| + |outbox|
            && (forall i | 0 <= i < |kept| :: notes[i] == Row(kept[i].source, kept[i].at, kept[i].unread))
            && (forall i | 0 <= i < |outbox| ::
                  notes[|kept| + i] == Row(outbox[i].destination, outbox[i].at, false))
  {
  }

  lemma NoRows()
    ensures Rows([]) == []
  {
  }

  lemma OneMoreRow(notes: seq<Row>, i: nat)
    requires i < |notes|
    ensures Rows(notes[..i + 1]) == Noted(Rows(notes[..i]), notes[i])
  {
    assert notes[..i + 1][..i] == notes[..i];
  }

  class Board {
    const messages: MessageStore
    var outbox: seq<Sent>

    constructor ()
      ensures fresh(messages) && messages.State() == EMPTY && outbox == []
    {
      messages := new MessageStore();
      outbox := [];
    }

    /** The list drawn on the panel: `Listed`, row by row, with ages. */
    method Conversations(now: nat) returns (rows: seq<ConversationRow>)
      ensures var listed := Listed(Notes(messages.kept, outbox));
              |rows| == |listed| && forall i | 0 <= i < |rows| :: rows[i] == Drawn(listed[i], now)
    {
      hide Noted, Rows, Sorted, Notes;
      var all: seq<Row> := [];
      ghost var notes := Notes(messages.kept, outbox);
      NotesAre(messages.kept, outbox);
      NoRows();
      for i := 0 to |messages.kept|
        invariant all == Rows(notes[..i])
      {
        OneMoreRow(notes, i);
        all := Noted(all, Row(messages.kept[i].source, messages.kept[i].at, messages.kept[i].unread));
      }
      for i := 0 to |outbox|
        invariant all == Rows(notes[..|messages.kept| + i])
      {
        OneMoreRow(notes, |messages.kept| + i);
        all := Noted(all, Row(outbox[i].destination, outbox[i].at, false));
      }
      assert notes[..|notes|] == notes;
      all := Sorted(all, Newness);
      rows := [];
      for i := 0 to if |all| <= CONVERSATIONS then |all| else CONVERSATIONS
        invariant |rows| == i && forall j | 0 <= j < i :: rows[j] == Drawn(all[j], now)
      {
        rows := rows + [Drawn(all[i], now)];
      }
    }

    /** Marks what was received among the first `through` of the thread; `marked` counts those
        that were unread. */
    method Read(peer: Address, through: nat) returns (marked: nat)
      modifies messages
      ensures messages.kept == MarkFirst(old(messages.kept), peer, |Shown(old(messages.kept), outbox, peer, through)|)
      ensures marked + Unread(messages.kept) == Unread(old(messages.kept))
    {
      var entries := Thread(messages.kept, outbox, peer);
      var received := 0;
      var n := if through <= |entries| then through else |entries|;
      for i := 0 to n
        invariant received == |Filter(entries[..i], IsReceived)|
      {
        assert entries[..i + 1][..i] == entries[..i];
        if entries[i].received {
          received := received + 1;
        }
      }
      assert Take(entries, through) == entries[..n];
      marked := messages.Read(peer, received);
    }
  }
}
