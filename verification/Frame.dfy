/** The framebuffer of `core/src/sh1107.rs`: 2048 bytes in the controller's layout and a
    sixteen-bit mask of the pages that have changed. */
module Frame {
  import opened Results

  const WIDTH := 128
  const HEIGHT := 128
  const PAGE_HEIGHT := 8
  const PAGES := 16
  const COLUMNS := 128
  const BUFFER_LEN := 2048

  const ALL_PAGES: bv16 := 0xFFFF

  /** `1 << page`. */
  function PageBit(page: nat): bv16
    requires page < PAGES
  {
    (1 as bv16) << page
  }

  /** `1 << bit`. */
  function PixelBit(bit: nat): bv8
    requires bit < PAGE_HEIGHT
  {
    (1 as bv8) << bit
  }

  /** The byte a pixel lives in and its bit there; nothing for one off the panel. */
  function RamPosition(x: nat, y: nat): (r: Option<(nat, nat)>)
    ensures r.Some? ==> r.value.0 < BUFFER_LEN && r.value.1 < PAGE_HEIGHT
  {
    if x >= WIDTH || y >= HEIGHT then None
    else Some((y / PAGE_HEIGHT * COLUMNS + x, y % PAGE_HEIGHT))
  }

  /** Every bit of display RAM is one pixel, and no two pixels share one. */
  lemma RamPositionIsOneToOne(x: nat, y: nat, index: nat, bit: nat)
    requires index < BUFFER_LEN && bit < PAGE_HEIGHT
    ensures RamPosition(x, y) == Some((index, bit))
            <==> x == index % COLUMNS && y == index / COLUMNS * PAGE_HEIGHT + bit
  {
  }

  // ---------------------------------------------------------------- bits and masks

  function With16(mask: bv16, bit: bv16): bv16 { mask | bit }

  function Without16(mask: bv16, bit: bv16): bv16 { mask & !bit }

  predicate Has16(mask: bv16, bit: bv16) { mask & bit != 0 }

  function With8(byte: bv8, bit: bv8): bv8 { byte | bit }

  function Without8(byte: bv8, bit: bv8): bv8 { byte & !bit }

  predicate Has8(byte: bv8, bit: bv8) { byte & bit != 0 }

  lemma PageBitTable(page: nat)
    requires page < PAGES
    ensures PageBit(page) == match page
      case 0 => 0x1 case 1 => 0x2 case 2 => 0x4 case 3 => 0x8
      case 4 => 0x10 case 5 => 0x20 case 6 => 0x40 case 7 => 0x80
      case 8 => 0x100 case 9 => 0x200 case 10 => 0x400 case 11 => 0x800
      case 12 => 0x1000 case 13 => 0x2000 case 14 => 0x4000 case _ => 0x8000
  {
  }

  lemma PixelBitTable(bit: nat)
    requires bit < PAGE_HEIGHT
    ensures PixelBit(bit) == match bit
      case 0 => 0x1 case 1 => 0x2 case 2 => 0x4 case 3 => 0x8
      case 4 => 0x10 case 5 => 0x20 case 6 => 0x40 case _ => 0x80
  {
  }

  lemma OtherBits16(mask: bv16, p: bv16, q: bv16)
    requires !Has16(p, q)
    ensures Has16(With16(mask, p), q) == Has16(mask, q)
    ensures Has16(Without16(mask, p), q) == Has16(mask, q)
  {
    WithOther16(mask, p, q);
    WithoutOther16(mask, p, q);
  }

  lemma WithOther16(mask: bv16, p: bv16, q: bv16)
    requires p & q == 0
    ensures (mask | p) & q == mask & q
  {
    assert (mask | p) & q == (mask & q) | (p & q);
  }

  lemma WithoutOther16(mask: bv16, p: bv16, q: bv16)
    requires p & q == 0
    ensures (mask & !p) & q == mask & q
  {
    AllOfOther16(p, q);
    AndAssociates16(mask, !p, q);
  }

  lemma AllOfOther16(p: bv16, q: bv16)
    requires p & q == 0
    ensures !p & q == q
  {
  }

  lemma AndAssociates16(a: bv16, b: bv16, c: bv16)
    ensures (a & b) & c == a & (b & c)
  {
  }

  lemma OwnBit16(mask: bv16, p: bv16)
    requires Has16(p, p)
    ensures Has16(With16(mask, p), p) && !Has16(Without16(mask, p), p)
  {
  }

  lemma OtherBits8(byte: bv8, p: bv8, q: bv8)
    requires !Has8(p, q)
    ensures Has8(With8(byte, p), q) == Has8(byte, q)
    ensures Has8(Without8(byte, p), q) == Has8(byte, q)
  {
  }

  lemma OwnBit8(byte: bv8, p: bv8)
    requires Has8(p, p)
    ensures Has8(With8(byte, p), p) && !Has8(Without8(byte, p), p)
  {
  }

  lemma PageBitsAreDistinct(p: nat, q: nat)
    requires p < PAGES && q < PAGES
    ensures Has16(PageBit(p), PageBit(q)) <==> p == q
    ensures Has16(ALL_PAGES, PageBit(p))
  {
    PageBitTable(p);
    PageBitTable(q);
  }

  lemma PixelBitsAreDistinct(p: nat, q: nat)
    requires p < PAGE_HEIGHT && q < PAGE_HEIGHT
    ensures Has8(PixelBit(p), PixelBit(q)) <==> p == q
  {
    PixelBitTable(p);
    PixelBitTable(q);
  }

  lemma MarkingSetsOneBit(mask: bv16, p: nat, q: nat)
    requires p < PAGES && q < PAGES
    ensures Has16(With16(mask, PageBit(p)), PageBit(q)) <==> p == q || Has16(mask, PageBit(q))
    ensures Has16(Without16(mask, PageBit(p)), PageBit(q)) <==> p != q && Has16(mask, PageBit(q))
  {
    hide PageBit, With16, Without16, Has16;
    PageBitsAreDistinct(p, q);
    if p == q {
      OwnBit16(mask, PageBit(p));
    } else {
      OtherBits16(mask, PageBit(p), PageBit(q));
    }
  }

  lemma SettingSetsOneBit(byte: bv8, p: nat, q: nat)
    requires p < PAGE_HEIGHT && q < PAGE_HEIGHT
    ensures Has8(With8(byte, PixelBit(p)), PixelBit(q)) <==> p == q || Has8(byte, PixelBit(q))
    ensures Has8(Without8(byte, PixelBit(p)), PixelBit(q)) <==> p != q && Has8(byte, PixelBit(q))
  {
    hide PixelBit, With8, Without8, Has8;
    PixelBitsAreDistinct(p, q);
    if p == q {
      OwnBit8(byte, PixelBit(p));
    } else {
      OtherBits8(byte, PixelBit(p), PixelBit(q));
    }
  }

  // -------------------------------------------------------------- the frame's value

  type Buffer = s: seq<bv8> | |s| == BUFFER_LEN witness seq(BUFFER_LEN, _ => 0)

  datatype Picture = Picture(buf: Buffer, dirty: bv16) {
    predicate IsDirty(page: nat)
      requires page < PAGES
    {
      Has16(dirty, PageBit(page))
    }

    predicate Pixel(x: nat, y: nat) {
      match RamPosition(x, y)
      case Some((index, bit)) => Has8(buf[index], PixelBit(bit))
      case None => false
    }
  }

  /** The bytes of one page. */
  function PageOf(buf: Buffer, page: nat): (s: seq<bv8>)
    requires page < PAGES
    ensures |s| == COLUMNS
  {
    buf[page * COLUMNS..page * COLUMNS + COLUMNS]
  }

  function SetPixel(f: Picture, x: nat, y: nat, on: bool): Picture {
    match RamPosition(x, y)
    case None => f
    case Some((index, bit)) =>
      var before := f.buf[index];
      var after := if on then With8(before, PixelBit(bit)) else Without8(before, PixelBit(bit));
      if after == before then f else Picture(f.buf[index := after], With16(f.dirty, PageBit(index / COLUMNS)))
  }

  /** The first `n` pixels of a rectangle's row. */
  function RectRow(f: Picture, x: nat, y: nat, n: nat, on: bool): Picture {
    if n == 0 then f else SetPixel(RectRow(f, x, y, n - 1, on), x + n - 1, y, on)
  }

  /** The first `n` rows of a rectangle `w` wide. */
  function RectRows(f: Picture, x: nat, y: nat, w: nat, n: nat, on: bool): Picture {
    if n == 0 then f else RectRow(RectRows(f, x, y, w, n - 1, on), x, y + n - 1, w, on)
  }

  /** How far from `from` a run of `n` reaches on a panel `size` across. */
  function Clipped(from: nat, n: nat, size: nat): nat {
    if from >= size then 0 else if from + n > size then size - from else n
  }

  function Rect(f: Picture, x: nat, y: nat, w: nat, h: nat, on: bool): Picture {
    RectRows(f, x, y, Clipped(x, w, WIDTH), Clipped(y, h, HEIGHT), on)
  }

  function Fill(on: bool): Picture { Picture(seq(BUFFER_LEN, _ => if on then 0xFF else 0x00), ALL_PAGES) }

  /** The first `n` pages adopted from another frame. */
  function CopyPages(f: Picture, other: Buffer, n: nat): Picture
    requires n <= PAGES
  {
    if n == 0 then f
    else
      var g, page := CopyPages(f, other, n - 1), n - 1;
      if PageOf(g.buf, page) == PageOf(other, page) then g else WithPage(g, other, page)
  }

  /** One page adopted from another frame, and marked. */
  function WithPage(f: Picture, other: Buffer, page: nat): Picture
    requires page < PAGES
  {
    Picture(f.buf[..page * COLUMNS] + PageOf(other, page) + f.buf[(page + 1) * COLUMNS..],
            With16(f.dirty, PageBit(page)))
  }

  function MarkSent(f: Picture, page: nat): Picture
    requires page < PAGES
  {
    f.(dirty := Without16(f.dirty, PageBit(page)))
  }

  // ------------------------------------------------------------------- the frame

  class Framebuffer {
    const buf: array<bv8>
    var dirty: bv16

    ghost predicate Valid() { buf.Length == BUFFER_LEN }

    function State(): Picture
      requires Valid()
      reads this, buf
    {
      Picture(buf[..], dirty)
    }

    /** All dark, and every page to be sent. */
    constructor ()
      ensures Valid() && fresh(buf) && State() == Fill(false)
    {
      buf := new bv8[BUFFER_LEN](_ => 0);
      dirty := ALL_PAGES;
      new;
      assert buf[..] == Fill(false).buf;
    }

    method Set(x: nat, y: nat, on: bool)
      requires Valid()
      modifies this`dirty, buf
      ensures State() == SetPixel(old(State()), x, y, on)
    {
      hide With8, Without8, With16, PageBit, PixelBit;
      var position := RamPosition(x, y);
      if position.None? {
        return;
      }
      var (index, bit) := position.value;
      var mask := PixelBit(bit);
      var before := buf[index];
      var after := if on then With8(before, mask) else Without8(before, mask);
      if after != before {
        buf[index] := after;
        dirty := With16(dirty, PageBit(index / COLUMNS));
      }
    }

    method FillRect(x: nat, y: nat, w: nat, h: nat, on: bool)
      requires Valid()
      modifies this`dirty, buf
      ensures State() == Rect(old(State()), x, y, w, h, on)
    {
      hide SetPixel;
      ghost var f := State();
      var right, bottom := x + Clipped(x, w, WIDTH), y + Clipped(y, h, HEIGHT);
      for py := y to bottom
        invariant State() == RectRows(f, x, y, right - x, py - y, on)
      {
        ghost var g := State();
        for px := x to right
          invariant State() == RectRow(g, x, py, px - x, on)
        {
          Set(px, py, on);
        }
      }
    }

    method FillAll(on: bool)
      requires Valid()
      modifies this`dirty, buf
      ensures State() == Fill(on)
    {
      forall i | 0 <= i < BUFFER_LEN {
        buf[i] := if on then 0xFF else 0x00;
      }
      dirty := ALL_PAGES;
    }

    method CopyFrom(other: Framebuffer)
      requires Valid() && other.Valid() && buf != other.buf
      modifies this`dirty, buf
      ensures State() == CopyPages(old(State()), other.buf[..], PAGES)
    {
      hide With16, PageBit, CopyPages;
      ghost var f, o := State(), other.buf[..];
      CopyNone(f, o);
      for page := 0 to PAGES
        invariant State() == CopyPages(f, o, page)
        invariant other.buf[..] == o
      {
        var from, to := page * COLUMNS, (page + 1) * COLUMNS;
        ghost var g := State();
        CopyOne(f, o, page);
        if buf[from..to] != other.buf[from..to] {
          forall i | from <= i < to {
            buf[i] := other.buf[i];
          }
          dirty := With16(dirty, PageBit(page));
          assert buf[..] == WithPage(g, o, page).buf;
        } else {
          assert PageOf(g.buf, page) == buf[from..to];
        }
      }
    }

    method Sent(page: nat)
      requires Valid() && page < PAGES
      modifies this`dirty
      ensures State() == MarkSent(old(State()), page)
    {
      dirty := Without16(dirty, PageBit(page));
    }

    method MarkAllDirty()
      requires Valid()
      modifies this`dirty
      ensures State() == old(State()).(dirty := ALL_PAGES)
    {
      dirty := ALL_PAGES;
    }
  }

  lemma CopyNone(f: Picture, other: Buffer)
    ensures CopyPages(f, other, 0) == f
  {
  }

  lemma CopyOne(f: Picture, other: Buffer, page: nat)
    requires page < PAGES
    ensures var g := CopyPages(f, other, page);
            CopyPages(f, other, page + 1)
            == if g.buf[page * COLUMNS..(page + 1) * COLUMNS] == other[page * COLUMNS..(page + 1) * COLUMNS] then g
               else WithPage(g, other, page)
  {
    hide WithPage;
  }
}
