/** The panel stays coherent with the frame through every interleaving of drawing and
    flushing, whatever the bus does; and flushing finishes, with however many failures between. */
module PanelLaws {
  import opened Frame
  import opened FrameLaws
  import opened Panel

  /** A page not marked is, in the controller, what it is in the frame. */
  predicate Coherent(f: Picture, ram: Buffer) {
    forall i | 0 <= i < BUFFER_LEN :: ram[i] == f.buf[i] || f.IsDirty(i / COLUMNS)
  }

  // ----------------------------------------------------------- what a transfer does

  predicate OnPage(i: nat, page: nat) { page * COLUMNS <= i < page * COLUMNS + COLUMNS }

  lemma CursorCommand(c: Controller, page: nat)
    requires c.Valid() && page < PAGES
    ensures Command(Command(Command(c, 0xB0 | (page as bv8 & 0x0F)), 0x00), 0x10) == Controller(c.ram, page, 0)
  {
    PageCommand(page);
  }

  lemma PageCommand(page: nat)
    requires page < PAGES
    ensures var b: bv8 := 0xB0 | (page as bv8 & 0x0F); b & 0xF0 == 0xB0 && (b & 0x0F) as nat == page
  {
    PageByte(page);
  }

  lemma PageByte(page: nat)
    requires page < PAGES
    ensures 0xB0 | (page as bv8 & 0x0F) == match page
      case 0 => 0xB0 case 1 => 0xB1 case 2 => 0xB2 case 3 => 0xB3
      case 4 => 0xB4 case 5 => 0xB5 case 6 => 0xB6 case 7 => 0xB7
      case 8 => 0xB8 case 9 => 0xB9 case 10 => 0xBA case 11 => 0xBB
      case 12 => 0xBC case 13 => 0xBD case 14 => 0xBE case _ => 0xBF
  {
  }

  lemma {:induction false} CommandsKeepRam(c: Controller, bytes: seq<bv8>)
    requires c.Valid()
    ensures Receive(c, COMMANDS, bytes).ram == c.ram
  {
    hide Command;
    if bytes != [] {
      CommandsKeepRam(c, bytes[..|bytes| - 1]);
    }
  }

  lemma CursorMoves(c: Controller, page: nat)
    requires c.Valid() && page < PAGES
    ensures Receive(c, COMMANDS, PageCursor(page)) == Controller(c.ram, page, 0)
  {
    hide Command;
    CursorCommand(c, page);
    var bytes := PageCursor(page);
    assert bytes[..2][..1] == bytes[..1] && bytes[..1][..0] == [];
    assert Receive(c, COMMANDS, bytes[..1]) == Command(c, bytes[0]);
    assert Receive(c, COMMANDS, bytes[..2]) == Command(Command(c, bytes[0]), bytes[1]);
  }

  lemma PageAndColumnBytes(page: nat, column: nat)
    requires page < PAGES && column < COLUMNS
    ensures var p, low, high: bv8 := 0xB0 + page as bv8, (column % 16) as bv8, 0x10 + (column / 16) as bv8;
            && p & 0xF0 == 0xB0 && (p & 0x0F) as nat == page
            && low & 0xF0 == 0 && (low & 0x0F) as nat == column % 16
            && high & 0xF0 != 0xB0 && high & 0xF0 != 0 && high & 0xF8 == 0x10 && (high & 0x07) as nat == column / 16
  {
    PageByte(page);
    NibbleByte(column % 16);
    EighthByte(column / 16);
  }

  lemma NibbleByte(n: nat)
    requires n < 16
    ensures (n as bv8) & 0xF0 == 0 && ((n as bv8) & 0x0F) as nat == n
    ensures (0xB0 + n as bv8) & 0xF0 == 0xB0 && ((0xB0 + n as bv8) & 0x0F) as nat == n
  {
  }

  lemma EighthByte(n: nat)
    requires n < 8
    ensures var high: bv8 := 0x10 + n as bv8;
            high & 0xF0 != 0xB0 && high & 0xF0 != 0 && high & 0xF8 == 0x10 && (high & 0x07) as nat == n
  {
  }

  /** The three cursor commands reach every column of every page: the page, the low half of the
      column, the high half. */
  lemma CursorReaches(c: Controller, page: nat, column: nat)
    requires c.Valid() && page < PAGES && column < COLUMNS
    ensures var p, low, high: bv8 := 0xB0 + page as bv8, (column % 16) as bv8, 0x10 + (column / 16) as bv8;
            Command(Command(Command(c, p), low), high) == Controller(c.ram, page, column)
  {
    hide Command;
    PageAndColumnBytes(page, column);
    CursorMovesBy(c, 0xB0 + page as bv8, (column % 16) as bv8, 0x10 + (column / 16) as bv8, page, column);
  }

  lemma CursorMovesBy(c: Controller, p: bv8, low: bv8, high: bv8, page: nat, column: nat)
    requires c.Valid() && page < PAGES && column < COLUMNS
    requires p & 0xF0 == 0xB0 && (p & 0x0F) as nat == page && low & 0xF0 == 0 && (low & 0x0F) as nat == column % 16
    requires high & 0xF0 != 0xB0 && high & 0xF0 != 0 && high & 0xF8 == 0x10 && (high & 0x07) as nat == column / 16
    ensures Command(Command(Command(c, p), low), high) == Controller(c.ram, page, column)
  {
    hide Command;
    PageByteMoves(c, p);
    LowByteMoves(Command(c, p), low);
    HighByteMoves(Command(Command(c, p), low), high);
    Halves(column, c.column);
  }

  lemma PageByteMoves(c: Controller, b: bv8)
    requires c.Valid() && b & 0xF0 == 0xB0
    ensures Command(c, b) == c.(page := (b & 0x0F) as nat)
  {
  }

  lemma LowByteMoves(c: Controller, b: bv8)
    requires c.Valid() && b & 0xF0 == 0
    ensures Command(c, b) == c.(column := c.column / 16 * 16 + (b & 0x0F) as nat)
  {
  }

  lemma HighByteMoves(c: Controller, b: bv8)
    requires c.Valid() && b & 0xF0 != 0xB0 && b & 0xF0 != 0 && b & 0xF8 == 0x10
    ensures Command(c, b) == c.(column := (b & 0x07) as nat * 16 + c.column % 16)
  {
  }

  lemma Halves(column: nat, before: nat)
    ensures column / 16 * 16 + (before / 16 * 16 + column % 16) % 16 == column
  {
  }

  /** A page's worth of data, or the front of one, lands on the page the cursor is at. */
  lemma {:induction false} DataLands(c: Controller, bytes: seq<bv8>)
    requires c.Valid() && c.column == 0 && |bytes| <= COLUMNS
    ensures var r := Receive(c, DATA, bytes);
            && r.page == c.page && r.column == |bytes| % COLUMNS
            && forall i | 0 <= i < BUFFER_LEN ::
                 r.ram[i] == if c.page * COLUMNS <= i < c.page * COLUMNS + |bytes|
                             then bytes[i - c.page * COLUMNS] else c.ram[i]
  {
    if bytes != [] {
      var n := |bytes| - 1;
      DataLands(c, bytes[..n]);
      var before := Receive(c, DATA, bytes[..n]);
      assert Receive(c, DATA, bytes) == Store(before, bytes[n]);
    }
  }

  lemma CursorKeepsRam(c: Controller, page: nat, plan: seq<Delivery>)
    requires c.Valid() && page < PAGES
    ensures var t := Transfer(c, COMMANDS, PageCursor(page), plan);
            t.c.ram == c.ram && (t.ok ==> t.c == Controller(c.ram, page, 0))
  {
    CursorMoves(c, page);
    var bytes := PageCursor(page);
    if plan != [] && plan[0].Lost? {
      CommandsKeepRam(c, if plan[0].after < |bytes| then bytes[..plan[0].after] else bytes);
    }
    hide Receive, PageCursor, Command;
  }

  /** Sending a page touches no other page; and if it succeeds, the page has arrived. */
  lemma SendPageSends(c: Controller, f: Picture, page: nat, plan: seq<Delivery>)
    requires c.Valid() && page < PAGES
    ensures var s := SendPage(c, f, page, plan);
            && (forall i | 0 <= i < BUFFER_LEN && !OnPage(i, page) :: s.c.ram[i] == c.ram[i])
            && (s.ok ==> forall i | 0 <= i < BUFFER_LEN && OnPage(i, page) :: s.c.ram[i] == f.buf[i])
  {
    hide Receive, PageCursor, Transfer;
    CursorKeepsRam(c, page, plan);
    var t := Transfer(c, COMMANDS, PageCursor(page), plan);
    if t.ok {
      PageLands(t.c, f, page, t.plan);
    }
  }

  /** The data of a page, sent to its first column. */
  lemma PageLands(c: Controller, f: Picture, page: nat, plan: seq<Delivery>)
    requires c.Valid() && page < PAGES && c.page == page && c.column == 0
    ensures var s := Transfer(c, DATA, PageOf(f.buf, page), plan);
            && (forall i | 0 <= i < BUFFER_LEN && !OnPage(i, page) :: s.c.ram[i] == c.ram[i])
            && (s.ok ==> forall i | 0 <= i < BUFFER_LEN && OnPage(i, page) :: s.c.ram[i] == f.buf[i])
  {
    hide Receive;
    var bytes := PageOf(f.buf, page);
    DataLands(c, bytes);
    if plan != [] && plan[0].Lost? && plan[0].after < |bytes| {
      DataLands(c, bytes[..plan[0].after]);
    }
    forall i | 0 <= i < BUFFER_LEN && OnPage(i, page) ensures bytes[i - page * COLUMNS] == f.buf[i] {
    }
  }

  // ------------------------------------------------------------------ what a flush does

  lemma SentPages(f: Picture, page: nat, q: nat)
    requires page < PAGES && q < PAGES
    ensures MarkSent(f, page).IsDirty(q) <==> q != page && f.IsDirty(q)
  {
    MarkingSetsOneBit(f.dirty, page, q);
    hide Has16, Without16, PageBit;
  }

  lemma SendKeepsCoherent(c: Controller, f: Picture, page: nat, plan: seq<Delivery>)
    requires c.Valid() && page < PAGES && f.IsDirty(page) && Coherent(f, c.ram)
    ensures var s := SendPage(c, f, page, plan);
            Coherent(f, s.c.ram) && (s.ok ==> Coherent(MarkSent(f, page), s.c.ram))
  {
    SendPageSends(c, f, page, plan);
    hide SendPage, Has16, MarkSent;
    var s := SendPage(c, f, page, plan);
    forall i | 0 <= i < BUFFER_LEN ensures s.c.ram[i] == f.buf[i] || f.IsDirty(i / COLUMNS) {
      assert OnPage(i, page) <==> i / COLUMNS == page;
    }
    if s.ok {
      forall i | 0 <= i < BUFFER_LEN
        ensures s.c.ram[i] == MarkSent(f, page).buf[i] || MarkSent(f, page).IsDirty(i / COLUMNS)
      {
        SentPages(f, page, i / COLUMNS);
        SameBytes(f, page);
        assert OnPage(i, page) <==> i / COLUMNS == page;
      }
    }
  }

  lemma SameBytes(f: Picture, page: nat)
    requires page < PAGES
    ensures MarkSent(f, page).buf == f.buf
  {
  }

  /** However a flush goes, it leaves the frame's pixels alone and the panel coherent. */
  lemma {:induction false} FlushKeepsCoherent(c: Controller, f: Picture, page: nat, sent: nat, max: nat,
                                              plan: seq<Delivery>)
    requires c.Valid() && page <= PAGES && Coherent(f, c.ram)
    ensures var r := FlushFrom(c, f, page, sent, max, plan);
            Coherent(r.f, r.c.ram) && r.f.buf == f.buf
    decreases PAGES - page
  {
    hide SendPage, Coherent, MarkSent, Has16;
    if page < PAGES {
      if !f.IsDirty(page) {
        FlushKeepsCoherent(c, f, page + 1, sent, max, plan);
      } else if sent != max {
        SendKeepsCoherent(c, f, page, plan);
        SameBytes(f, page);
        var s := SendPage(c, f, page, plan);
        if s.ok {
          FlushKeepsCoherent(s.c, MarkSent(f, page), page + 1, sent + 1, max, s.plan);
        }
      }
    }
  }

  /** How many of the pages from `page` on are marked. */
  function DirtyFrom(f: Picture, page: nat): nat
    requires page <= PAGES
    decreases PAGES - page
  {
    if page == PAGES then 0 else (if f.IsDirty(page) then 1 else 0) + DirtyFrom(f, page + 1)
  }

  lemma {:induction false} SentOneFewer(f: Picture, sent: nat, page: nat)
    requires sent < PAGES && page <= PAGES && f.IsDirty(sent)
    ensures DirtyFrom(MarkSent(f, sent), page) == DirtyFrom(f, page) - if page <= sent then 1 else 0
    decreases PAGES - page
  {
    hide MarkSent, Has16;
    if page < PAGES {
      SentPages(f, sent, page);
      SentOneFewer(f, sent, page + 1);
    }
  }

  function Fewer(n: nat, m: nat): nat { if n <= m then 0 else n - m }

  /** A flush that succeeds clears as many marks as it may; pages before `page` are not its
      business. */
  lemma {:induction false} FlushClears(c: Controller, f: Picture, page: nat, sent: nat, max: nat, plan: seq<Delivery>)
    requires c.Valid() && page <= PAGES && sent <= max
    requires FlushFrom(c, f, page, sent, max, plan).ok
    ensures var r := FlushFrom(c, f, page, sent, max, plan);
            && DirtyFrom(r.f, page) == Fewer(DirtyFrom(f, page), max - sent)
            && (forall q | 0 <= q < page :: r.f.IsDirty(q) == f.IsDirty(q))
    decreases PAGES - page
  {
    hide SendPage, MarkSent, Has16;
    if page < PAGES {
      if !f.IsDirty(page) {
        FlushClears(c, f, page + 1, sent, max, plan);
      } else if sent != max {
        var s, g := SendPage(c, f, page, plan), MarkSent(f, page);
        FlushClears(s.c, g, page + 1, sent + 1, max, s.plan);
        SentOneFewer(f, page, page + 1);
        forall q | 0 <= q <= page ensures g.IsDirty(q) <==> q != page && f.IsDirty(q) {
          SentPages(f, page, q);
        }
      }
    }
  }

  /** Transfers take what the bus has in store in turn, one each. */
  lemma TransferTakesOne(c: Controller, control: bv8, bytes: seq<bv8>, d: Delivery, rest: seq<Delivery>)
    requires c.Valid()
    ensures var r := Transfer(c, control, bytes, [d] + rest);
            r.plan == rest && (r.ok <==> d.Through?)
  {
    hide Receive;
  }

  /** A bus that loses nothing. */
  predicate Reliable(plan: seq<Delivery>) { forall d | d in plan :: d.Through? }

  lemma ReliableTransfer(c: Controller, control: bv8, bytes: seq<bv8>, plan: seq<Delivery>)
    requires c.Valid() && Reliable(plan)
    ensures Transfer(c, control, bytes, plan).ok && Reliable(Transfer(c, control, bytes, plan).plan)
  {
    hide Receive;
  }

  lemma ReliableSend(c: Controller, f: Picture, page: nat, plan: seq<Delivery>)
    requires c.Valid() && page < PAGES && Reliable(plan)
    ensures SendPage(c, f, page, plan).ok && Reliable(SendPage(c, f, page, plan).plan)
  {
    hide Transfer, PageCursor, Reliable;
    var cursor := Transfer(c, COMMANDS, PageCursor(page), plan);
    ReliableTransfer(c, COMMANDS, PageCursor(page), plan);
    ReliableTransfer(cursor.c, DATA, PageOf(f.buf, page), cursor.plan);
  }

  /** With nothing lost, a flush succeeds. */
  lemma {:induction false} ReliableFlushSucceeds(c: Controller, f: Picture, page: nat, sent: nat, max: nat,
                                                 plan: seq<Delivery>)
    requires c.Valid() && page <= PAGES && Reliable(plan)
    ensures FlushFrom(c, f, page, sent, max, plan).ok
    decreases PAGES - page
  {
    hide SendPage, MarkSent, Has16, Reliable;
    if page < PAGES {
      if !f.IsDirty(page) {
        ReliableFlushSucceeds(c, f, page + 1, sent, max, plan);
      } else if sent != max {
        var s := SendPage(c, f, page, plan);
        ReliableSend(c, f, page, plan);
        ReliableFlushSucceeds(s.c, MarkSent(f, page), page + 1, sent + 1, max, s.plan);
      }
    }
  }

  lemma {:induction false} NoneDirty(f: Picture, page: nat, q: nat)
    requires page <= q < PAGES && DirtyFrom(f, page) == 0
    ensures !f.IsDirty(q)
    decreases q - page
  {
    hide Has16;
    if page < q {
      NoneDirty(f, page + 1, q);
    }
  }

  // ---------------------------------------------------------------------- whole runs

  datatype Screen = Screen(f: Picture, c: Controller)

  datatype Step =
    | Draw(x: nat, y: nat, on: bool)
    | DrawRect(x: nat, y: nat, w: nat, h: nat, on: bool)
    | Clear(on: bool)
    | Adopt(other: Buffer)
    | Remark
    | Flush(max: nat, plan: seq<Delivery>)

  function Next(s: Screen, step: Step): (r: Screen)
    requires s.c.Valid()
    ensures r.c.Valid()
  {
    match step
    case Draw(x, y, on) => s.(f := SetPixel(s.f, x, y, on))
    case DrawRect(x, y, w, h, on) => s.(f := Rect(s.f, x, y, w, h, on))
    case Clear(on) => s.(f := Fill(on))
    case Adopt(other) => s.(f := CopyPages(s.f, other, PAGES))
    case Remark => s.(f := s.f.(dirty := ALL_PAGES))
    case Flush(max, plan) =>
      var r := FlushFrom(s.c, s.f, 0, 0, max, plan);
      Screen(r.f, r.c)
  }

  function Run(s: Screen, steps: seq<Step>): (r: Screen)
    requires s.c.Valid()
    ensures r.c.Valid()
  {
    if steps == [] then s else Next(Run(s, steps[..|steps| - 1]), steps[|steps| - 1])
  }

  lemma MarkedKeepsCoherent(f: Picture, g: Picture, ram: Buffer)
    requires Coherent(f, ram) && Marked(f, g)
    ensures Coherent(g, ram)
  {
    hide Has16;
    forall i | 0 <= i < BUFFER_LEN ensures ram[i] == g.buf[i] || g.IsDirty(i / COLUMNS) {
      assert ram[i] == f.buf[i] || f.IsDirty(i / COLUMNS);
    }
  }

  lemma AllDirtyIsCoherent(f: Picture, ram: Buffer)
    requires f.dirty == ALL_PAGES
    ensures Coherent(f, ram)
  {
    forall i | 0 <= i < BUFFER_LEN ensures f.IsDirty(i / COLUMNS) {
      PageBitsAreDistinct(i / COLUMNS, i / COLUMNS);
    }
  }

  lemma NextKeepsCoherent(s: Screen, step: Step)
    requires s.c.Valid() && Coherent(s.f, s.c.ram)
    ensures Coherent(Next(s, step).f, Next(s, step).c.ram)
  {
    hide SetPixel, Rect, CopyPages, FlushFrom, Coherent, Marked;
    var f := s.f;
    match step {
      case Draw(x, y, on) =>
        SetIsMarked(f, x, y, on);
        MarkedKeepsCoherent(f, SetPixel(f, x, y, on), s.c.ram);
      case DrawRect(x, y, w, h, on) =>
        RectIsMarked(f, x, y, w, h, on);
        MarkedKeepsCoherent(f, Rect(f, x, y, w, h, on), s.c.ram);
      case Clear(on) =>
        AllDirtyIsCoherent(Fill(on), s.c.ram);
      case Adopt(other) =>
        CopyFromAdopts(f, other);
        MarkedKeepsCoherent(f, CopyPages(f, other, PAGES), s.c.ram);
      case Remark =>
        AllDirtyIsCoherent(f.(dirty := ALL_PAGES), s.c.ram);
      case Flush(max, plan) =>
        FlushKeepsCoherent(s.c, f, 0, 0, max, plan);
    }
  }

  lemma RectIsMarked(f: Picture, x: nat, y: nat, w: nat, h: nat, on: bool)
    ensures Marked(f, Rect(f, x, y, w, h, on))
  {
    hide Marked, RectRows;
    RowsAreMarked(f, x, y, Clipped(x, w, WIDTH), Clipped(y, h, HEIGHT), on);
  }

  /** From a new frame and whatever the controller woke up with, every run of drawing,
      adopting and flushing, on any bus, leaves every unmarked page true on the panel. */
  lemma {:induction false} RunsStayCoherent(c: Controller, steps: seq<Step>)
    requires c.Valid()
    ensures var s := Run(Screen(Fill(false), c), steps); Coherent(s.f, s.c.ram)
  {
    hide Coherent, Next;
    if steps == [] {
      AllDirtyIsCoherent(Fill(false), c.ram);
    } else {
      RunsStayCoherent(c, steps[..|steps| - 1]);
      NextKeepsCoherent(Run(Screen(Fill(false), c), steps[..|steps| - 1]), steps[|steps| - 1]);
    }
  }

  /** A flush, whatever becomes of it, marks no page. */
  lemma {:induction false} FlushNeverMarks(c: Controller, f: Picture, page: nat, sent: nat, max: nat,
                                           plan: seq<Delivery>, q: nat)
    requires c.Valid() && page <= PAGES && q < PAGES
    ensures FlushFrom(c, f, page, sent, max, plan).f.IsDirty(q) ==> f.IsDirty(q)
    decreases PAGES - page
  {
    hide SendPage, MarkSent, Has16;
    if page < PAGES {
      if !f.IsDirty(page) {
        FlushNeverMarks(c, f, page + 1, sent, max, plan, q);
      } else if sent != max {
        var s := SendPage(c, f, page, plan);
        if s.ok {
          FlushNeverMarks(s.c, MarkSent(f, page), page + 1, sent + 1, max, s.plan, q);
          SentPages(f, page, q);
        }
      }
    }
  }

  lemma {:induction false} FewerMarks(f: Picture, g: Picture, page: nat)
    requires page <= PAGES && forall q | 0 <= q < PAGES :: g.IsDirty(q) ==> f.IsDirty(q)
    ensures DirtyFrom(g, page) <= DirtyFrom(f, page)
    decreases PAGES - page
  {
    hide Has16;
    if page < PAGES {
      FewerMarks(f, g, page + 1);
    }
  }

  /** What a flush may send, if it goes well; nothing is promised of one that fails. */
  function Allowance(s: Screen, step: Step): nat
    requires s.c.Valid()
  {
    if step.Flush? && FlushFrom(s.c, s.f, 0, 0, step.max, step.plan).ok then step.max else 0
  }

  /** What the flushes of a run that went well could send, together. */
  function Allowed(s: Screen, steps: seq<Step>): nat
    requires s.c.Valid()
  {
    if steps == [] then 0
    else
      var most := steps[..|steps| - 1];
      Allowed(s, most) + Allowance(Run(s, most), steps[|steps| - 1])
  }

  lemma FlushTakesItsAllowance(s: Screen, step: Step)
    requires s.c.Valid() && Coherent(s.f, s.c.ram) && step.Flush?
    ensures var r := Next(s, step);
            && DirtyFrom(r.f, 0) <= Fewer(DirtyFrom(s.f, 0), Allowance(s, step))
            && r.f.buf == s.f.buf && Coherent(r.f, r.c.ram)
  {
    hide FlushFrom, DirtyFrom, Coherent, Has16;
    FlushKeepsCoherent(s.c, s.f, 0, 0, step.max, step.plan);
    if FlushFrom(s.c, s.f, 0, 0, step.max, step.plan).ok {
      FlushClears(s.c, s.f, 0, 0, step.max, step.plan);
    } else {
      forall q | 0 <= q < PAGES
        ensures FlushFrom(s.c, s.f, 0, 0, step.max, step.plan).f.IsDirty(q) ==> s.f.IsDirty(q)
      {
        FlushNeverMarks(s.c, s.f, 0, 0, step.max, step.plan, q);
      }
      FewerMarks(s.f, FlushFrom(s.c, s.f, 0, 0, step.max, step.plan).f, 0);
    }
  }

  /** Flush after flush on any bus, each with its own limit: those that go well take their
      limits off the marks, and those that fail between them put none back. So once they may
      have sent as many pages as were marked, none is marked and the panel shows the frame. */
  lemma {:induction false} FlushingFinishes(s: Screen, steps: seq<Step>)
    requires s.c.Valid() && Coherent(s.f, s.c.ram)
    requires forall step | step in steps :: step.Flush?
    ensures var r := Run(s, steps);
            && DirtyFrom(r.f, 0) <= Fewer(DirtyFrom(s.f, 0), Allowed(s, steps))
            && r.f.buf == s.f.buf && Coherent(r.f, r.c.ram)
            && (DirtyFrom(s.f, 0) <= Allowed(s, steps) ==> r.c.ram == s.f.buf)
    decreases |steps|
  {
    hide Next, Allowance, DirtyFrom, Coherent, Has16;
    if steps != [] {
      var most := steps[..|steps| - 1];
      FlushingFinishes(s, most);
      FlushTakesItsAllowance(Run(s, most), steps[|steps| - 1]);
    }
    if DirtyFrom(s.f, 0) <= Allowed(s, steps) {
      CleanShowsTheFrame(Run(s, steps).f, Run(s, steps).c.ram);
    }
  }

  /** `n` flushes of up to `max` pages each, nothing going wrong. */
  function SmoothFlushes(max: nat, n: nat): (steps: seq<Step>)
    ensures forall step | step in steps :: step.Flush?
  {
    if n == 0 then [] else SmoothFlushes(max, n - 1) + [Flush(max, [])]
  }

  lemma OneMoreSmooth(s: Screen, max: nat, n: nat)
    requires s.c.Valid() && n > 0
    ensures var before := Run(s, SmoothFlushes(max, n - 1));
            && Run(s, SmoothFlushes(max, n)) == Next(before, Flush(max, []))
            && Allowed(s, SmoothFlushes(max, n))
               == Allowed(s, SmoothFlushes(max, n - 1)) + Allowance(before, Flush(max, []))
  {
    hide Next, Allowance;
    var steps := SmoothFlushes(max, n);
    assert steps[..|steps| - 1] == SmoothFlushes(max, n - 1);
  }

  /** Undisturbed, exactly `max` marks go at a time until none is left; then the panel shows
      the frame. */
  lemma {:induction false} SmoothFlushingFinishes(s: Screen, max: nat, n: nat)
    requires s.c.Valid() && Coherent(s.f, s.c.ram)
    ensures var r := Run(s, SmoothFlushes(max, n));
            && Allowed(s, SmoothFlushes(max, n)) == n * max
            && DirtyFrom(r.f, 0) == Fewer(DirtyFrom(s.f, 0), n * max)
            && (DirtyFrom(s.f, 0) <= n * max ==> r.c.ram == s.f.buf)
  {
    hide FlushFrom, DirtyFrom, Coherent, Has16, Run, Allowed;
    if n == 0 {
      NothingFlushed(s, max);
    } else {
      var before := Run(s, SmoothFlushes(max, n - 1));
      SmoothFlushingFinishes(s, max, n - 1);
      OneMoreSmooth(s, max, n);
      ReliableFlushSucceeds(before.c, before.f, 0, 0, max, []);
      FlushClears(before.c, before.f, 0, 0, max, []);
      assert n * max == (n - 1) * max + max;
    }
    FlushingFinishes(s, SmoothFlushes(max, n));
  }

  lemma NothingFlushed(s: Screen, max: nat)
    requires s.c.Valid()
    ensures Run(s, SmoothFlushes(max, 0)) == s && Allowed(s, SmoothFlushes(max, 0)) == 0 == 0 * max
  {
  }

  lemma CleanShowsTheFrame(f: Picture, ram: Buffer)
    requires Coherent(f, ram) && DirtyFrom(f, 0) == 0
    ensures ram == f.buf
  {
    forall i | 0 <= i < BUFFER_LEN ensures ram[i] == f.buf[i] {
      NoneDirty(f, 0, i / COLUMNS);
      hide Has16;
    }
  }
}
