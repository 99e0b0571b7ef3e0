/** `Panel::flush_pages` of `src/display.rs`, against a model of the SH1107's display RAM in
    page addressing mode, on a bus that may lose any part of any transfer. */
module Panel {
  import opened Frame

  // ---------------------------------------------------------------- the controller

  /** Display RAM, and the cursor the next data byte goes to. */
  datatype Controller = Controller(ram: Buffer, page: nat, column: nat) {
    predicate Valid() { page < PAGES && column < COLUMNS }
  }

  const COMMANDS: bv8 := 0x00
  const DATA: bv8 := 0x40

  /** The cursor commands; anything else leaves the cursor and the RAM alone. */
  function Command(c: Controller, b: bv8): (r: Controller)
    requires c.Valid()
    ensures r.Valid() && r.ram == c.ram
  {
    if b & 0xF0 == 0xB0 then c.(page := (b & 0x0F) as nat)
    else if b & 0xF0 == 0x00 then c.(column := c.column / 16 * 16 + (b & 0x0F) as nat)
    else if b & 0xF8 == 0x10 then c.(column := (b & 0x07) as nat * 16 + c.column % 16)
    else c
  }

  /** Data goes to the cursor, whose column wraps within the page. */
  function Store(c: Controller, b: bv8): (r: Controller)
    requires c.Valid()
    ensures r.Valid()
  {
    Controller(c.ram[c.page * COLUMNS + c.column := b], c.page, (c.column + 1) % COLUMNS)
  }

  function Receive(c: Controller, control: bv8, bytes: seq<bv8>): (r: Controller)
    requires c.Valid()
    ensures r.Valid()
  {
    if bytes == [] then c
    else
      var before, b := Receive(c, control, bytes[..|bytes| - 1]), bytes[|bytes| - 1];
      if control == COMMANDS then Command(before, b) else if control == DATA then Store(before, b) else before
  }

  /** What becomes of a transfer: it goes through, or fails after so many of its bytes. */
  datatype Delivery = Through | Lost(after: nat)

  /** The controller, what the bus still has in store, and whether the transfer succeeded. */
  datatype Sent = Sent(c: Controller, plan: seq<Delivery>, ok: bool)

  function Transfer(c: Controller, control: bv8, bytes: seq<bv8>, plan: seq<Delivery>): (r: Sent)
    requires c.Valid()
    ensures r.c.Valid()
  {
    if plan == [] then Sent(Receive(c, control, bytes), [], true)
    else
      match plan[0]
      case Through => Sent(Receive(c, control, bytes), plan[1..], true)
      case Lost(n) => Sent(Receive(c, control, if n < |bytes| then bytes[..n] else bytes), plan[1..], false)
  }

  /** `page_cursor`: to the first column of a page. */
  function PageCursor(page: nat): seq<bv8>
    requires page < PAGES
  {
    [0xB0 | (page as bv8 & 0x0F), 0x00, 0x10]
  }

  // ---------------------------------------------------------------- sending pages

  function SendPage(c: Controller, f: Picture, page: nat, plan: seq<Delivery>): (r: Sent)
    requires c.Valid() && page < PAGES
    ensures r.c.Valid()
  {
    var cursor := Transfer(c, COMMANDS, PageCursor(page), plan);
    if !cursor.ok then cursor else Transfer(cursor.c, DATA, PageOf(f.buf, page), cursor.plan)
  }

  datatype Flushed = Flushed(c: Controller, f: Picture, plan: seq<Delivery>, ok: bool)

  /** `flush_pages`, from `page` on, `sent` pages having gone already. */
  function FlushFrom(c: Controller, f: Picture, page: nat, sent: nat, max: nat, plan: seq<Delivery>): (r: Flushed)
    requires c.Valid() && page <= PAGES
    ensures r.c.Valid()
    decreases PAGES - page
  {
    if page == PAGES then Flushed(c, f, plan, true)
    else if !f.IsDirty(page) then FlushFrom(c, f, page + 1, sent, max, plan)
    else if sent == max then Flushed(c, f, plan, true)
    else
      var s := SendPage(c, f, page, plan);
      if !s.ok then Flushed(s.c, f, s.plan, false)
      else FlushFrom(s.c, MarkSent(f, page), page + 1, sent + 1, max, s.plan)
  }

  /** The panel on its bus: a controller, and what the bus has in store for it. */
  class Display {
    var controller: Controller
    var plan: seq<Delivery>

    constructor (c: Controller, plan: seq<Delivery>)
      ensures controller == c && this.plan == plan
    {
      this.controller, this.plan := c, plan;
    }

    method Write(control: bv8, bytes: seq<bv8>) returns (ok: bool)
      requires controller.Valid()
      modifies this
      ensures Sent(controller, plan, ok) == Transfer(old(controller), control, bytes, old(plan))
    {
      var s := Transfer(controller, control, bytes, plan);
      controller, plan, ok := s.c, s.plan, s.ok;
    }

    method FlushPages(frame: Framebuffer, max: nat) returns (ok: bool)
      requires controller.Valid() && frame.Valid()
      modifies this, frame`dirty
      ensures Flushed(controller, frame.State(), plan, ok)
           == FlushFrom(old(controller), old(frame.State()), 0, 0, max, old(plan))
    {
      hide PageCursor, Transfer, MarkSent, Has16;
      ghost var goal := FlushFrom(controller, frame.State(), 0, 0, max, plan);
      var sent := 0;
      var page := 0;
      while page < PAGES
        invariant page <= PAGES && controller.Valid()
        invariant FlushFrom(controller, frame.State(), page, sent, max, plan) == goal
      {
        if frame.State().IsDirty(page) {
          if sent == max {
            return true;
          }
          sent := sent + 1;
          ghost var f := frame.State();
          var cursorOk := Write(COMMANDS, PageCursor(page));
          if !cursorOk {
            return false;
          }
          var dataOk := Write(DATA, PageOf(frame.State().buf, page));
          if !dataOk {
            return false;
          }
          assert frame.State() == f;
          frame.Sent(page);
        }
        page := page + 1;
      }
      ok := true;
    }
  }
}
