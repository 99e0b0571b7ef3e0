/** What drawing does to pixels and to the dirty mask. */
module FrameLaws {
  import opened Frame

  predicate OnPanel(x: nat, y: nat) { x < WIDTH && y < HEIGHT }

  lemma BitUnchangedIff(byte: bv8, bit: nat)
    requires bit < PAGE_HEIGHT
    ensures With8(byte, PixelBit(bit)) == byte <==> Has8(byte, PixelBit(bit))
    ensures Without8(byte, PixelBit(bit)) == byte <==> !Has8(byte, PixelBit(bit))
  {
    PixelBitTable(bit);
  }

  /** What one byte holds, pixel by pixel. */
  lemma {:induction false} SetReadsBack(f: Picture, x: nat, y: nat, on: bool, px: nat, py: nat)
    requires OnPanel(x, y) && OnPanel(px, py)
    ensures SetPixel(f, x, y, on).Pixel(px, py) <==> if px == x && py == y then on else f.Pixel(px, py)
  {
    var (index, bit) := RamPosition(x, y).value;
    var (pindex, pbit) := RamPosition(px, py).value;
    RamPositionIsOneToOne(x, y, index, bit);
    RamPositionIsOneToOne(px, py, pindex, pbit);
    SettingSetsOneBit(f.buf[index], bit, pbit);
    hide With8, Without8, Has8, PixelBit, With16, PageBit;
  }

  lemma {:induction false} SetMarks(f: Picture, x: nat, y: nat, on: bool, page: nat)
    requires OnPanel(x, y) && page < PAGES
    ensures SetPixel(f, x, y, on).IsDirty(page) <==> f.IsDirty(page) || (page == y / PAGE_HEIGHT && f.Pixel(x, y) != on)
  {
    var (index, bit) := RamPosition(x, y).value;
    BitUnchangedIff(f.buf[index], bit);
    MarkingSetsOneBit(f.dirty, index / COLUMNS, page);
    hide With8, Without8, Has8, PixelBit, With16, Has16, PageBit;
    assert index / COLUMNS == y / PAGE_HEIGHT;
  }

  /** Nothing changes on a page that is not marked, and no mark is lost. */
  predicate Marked(f: Picture, g: Picture) {
    && (forall page | 0 <= page < PAGES :: f.IsDirty(page) ==> g.IsDirty(page))
    && (forall i | 0 <= i < BUFFER_LEN :: g.buf[i] == f.buf[i] || g.IsDirty(i / COLUMNS))
  }

  lemma MarkedChains(f: Picture, g: Picture, h: Picture)
    requires Marked(f, g) && Marked(g, h)
    ensures Marked(f, h)
  {
    hide Has16;
    forall i | 0 <= i < BUFFER_LEN ensures h.buf[i] == f.buf[i] || h.IsDirty(i / COLUMNS) {
      if h.buf[i] == g.buf[i] && g.buf[i] != f.buf[i] {
        assert g.IsDirty(i / COLUMNS);
      }
    }
  }

  lemma SetIsMarked(f: Picture, x: nat, y: nat, on: bool)
    ensures Marked(f, SetPixel(f, x, y, on))
  {
    var g := SetPixel(f, x, y, on);
    if g != f {
      var index := RamPosition(x, y).value.0;
      forall page | 0 <= page < PAGES
        ensures f.IsDirty(page) ==> g.IsDirty(page)
        ensures page == index / COLUMNS ==> g.IsDirty(page)
      {
        MarkingSetsOneBit(f.dirty, index / COLUMNS, page);
        hide With16, Has16, PageBit, With8, Without8;
      }
      assert forall i | 0 <= i < BUFFER_LEN && i != index :: g.buf[i] == f.buf[i];
    }
  }

  // ------------------------------------------------------------------ rectangles

  predicate InRow(x: nat, y: nat, n: nat, px: nat, py: nat) { x <= px < x + n && py == y }

  predicate InRows(x: nat, y: nat, w: nat, n: nat, px: nat, py: nat) { x <= px < x + w && y <= py < y + n }

  lemma {:induction false} RowReadsBack(f: Picture, x: nat, y: nat, n: nat, on: bool, px: nat, py: nat)
    requires x + n <= WIDTH && y < HEIGHT && OnPanel(px, py)
    ensures RectRow(f, x, y, n, on).Pixel(px, py) <==> if InRow(x, y, n, px, py) then on else f.Pixel(px, py)
  {
    hide SetPixel, Has8;
    if n > 0 {
      RowReadsBack(f, x, y, n - 1, on, px, py);
      SetReadsBack(RectRow(f, x, y, n - 1, on), x + n - 1, y, on, px, py);
    }
  }

  lemma {:induction false} RowsReadBack(f: Picture, x: nat, y: nat, w: nat, n: nat, on: bool, px: nat, py: nat)
    requires x + w <= WIDTH && y + n <= HEIGHT && OnPanel(px, py)
    ensures RectRows(f, x, y, w, n, on).Pixel(px, py) <==> if InRows(x, y, w, n, px, py) then on else f.Pixel(px, py)
  {
    hide RectRow, Has8;
    if n > 0 {
      RowsReadBack(f, x, y, w, n - 1, on, px, py);
      RowReadsBack(RectRows(f, x, y, w, n - 1, on), x, y + n - 1, w, on, px, py);
    }
  }

  /** A rectangle sets exactly the panel's pixels inside it, wherever it lies. */
  lemma RectReadsBack(f: Picture, x: nat, y: nat, w: nat, h: nat, on: bool, px: nat, py: nat)
    requires OnPanel(px, py)
    ensures Rect(f, x, y, w, h, on).Pixel(px, py) <==> if InRows(x, y, w, h, px, py) then on else f.Pixel(px, py)
  {
    hide Has8;
    var cw, ch := Clipped(x, w, WIDTH), Clipped(y, h, HEIGHT);
    if x < WIDTH && y < HEIGHT {
      RowsReadBack(f, x, y, cw, ch, on, px, py);
    } else if x >= WIDTH {
      NothingWide(f, x, y, ch, on);
    }
  }

  lemma {:induction false} NothingWide(f: Picture, x: nat, y: nat, n: nat, on: bool)
    ensures RectRows(f, x, y, 0, n, on) == f
  {
    if n > 0 {
      NothingWide(f, x, y, n - 1, on);
    }
  }

  /** A pixel on `page` that the row changes. */
  ghost predicate RowChanges(f: Picture, x: nat, y: nat, n: nat, on: bool, page: nat) {
    page == y / PAGE_HEIGHT && exists px | x <= px < x + n :: f.Pixel(px, y) != on
  }

  lemma {:induction false} RowMarks(f: Picture, x: nat, y: nat, n: nat, on: bool, page: nat)
    requires x + n <= WIDTH && y < HEIGHT && page < PAGES
    ensures RectRow(f, x, y, n, on).IsDirty(page) <==> f.IsDirty(page) || RowChanges(f, x, y, n, on, page)
  {
    hide SetPixel, Has8, Has16;
    if n > 0 {
      RowMarks(f, x, y, n - 1, on, page);
      RowReadsBack(f, x, y, n - 1, on, x + n - 1, y);
      SetMarks(RectRow(f, x, y, n - 1, on), x + n - 1, y, on, page);
      assert RowChanges(f, x, y, n, on, page)
        <==> RowChanges(f, x, y, n - 1, on, page) || (page == y / PAGE_HEIGHT && f.Pixel(x + n - 1, y) != on);
    }
  }

  ghost predicate RowsChange(f: Picture, x: nat, y: nat, w: nat, n: nat, on: bool, page: nat) {
    exists py | y <= py < y + n :: RowChanges(f, x, py, w, on, page)
  }

  lemma {:induction false} RowsMark(f: Picture, x: nat, y: nat, w: nat, n: nat, on: bool, page: nat)
    requires x + w <= WIDTH && y + n <= HEIGHT && page < PAGES
    ensures RectRows(f, x, y, w, n, on).IsDirty(page) <==> f.IsDirty(page) || RowsChange(f, x, y, w, n, on, page)
  {
    hide RectRow, Has8, Has16;
    if n > 0 {
      var g, last := RectRows(f, x, y, w, n - 1, on), y + n - 1;
      RowsMark(f, x, y, w, n - 1, on, page);
      RowMarks(g, x, last, w, on, page);
      forall px | x <= px < x + w ensures g.Pixel(px, last) == f.Pixel(px, last) {
        RowsReadBack(f, x, y, w, n - 1, on, px, last);
      }
      assert RowChanges(g, x, last, w, on, page) <==> RowChanges(f, x, last, w, on, page);
    }
  }

  /** A rectangle marks exactly the pages on which it changes a pixel. */
  lemma RectMarks(f: Picture, x: nat, y: nat, w: nat, h: nat, on: bool, page: nat)
    requires page < PAGES
    ensures Rect(f, x, y, w, h, on).IsDirty(page) <==>
            f.IsDirty(page) || exists px: nat, py: nat ::
              OnPanel(px, py) && InRows(x, y, w, h, px, py) && py / PAGE_HEIGHT == page && f.Pixel(px, py) != on
  {
    hide Has8, Has16, RectRows;
    var cw, ch := Clipped(x, w, WIDTH), Clipped(y, h, HEIGHT);
    if x < WIDTH && y < HEIGHT {
      RowsMark(f, x, y, cw, ch, on, page);
      if px: nat, py: nat :|
        OnPanel(px, py) && InRows(x, y, w, h, px, py) && py / PAGE_HEIGHT == page && f.Pixel(px, py) != on
      {
        assert RowChanges(f, x, py, cw, on, page);
      }
      if RowsChange(f, x, y, cw, ch, on, page) {
        var py :| y <= py < y + ch && RowChanges(f, x, py, cw, on, page);
        var px :| x <= px < x + cw && f.Pixel(px, py) != on;
        assert OnPanel(px, py) && InRows(x, y, w, h, px, py);
      }
    } else if x >= WIDTH {
      NothingWide(f, x, y, ch, on);
    } else {
      NoRows(f, x, y, cw, on);
    }
  }

  lemma NoRows(f: Picture, x: nat, y: nat, w: nat, on: bool)
    ensures RectRows(f, x, y, w, 0, on) == f
  {
  }

  lemma {:induction false} RowIsMarked(f: Picture, x: nat, y: nat, n: nat, on: bool)
    ensures Marked(f, RectRow(f, x, y, n, on))
  {
    hide SetPixel, Marked;
    if n == 0 {
      MarkedSame(f);
    } else {
      RowIsMarked(f, x, y, n - 1, on);
      SetIsMarked(RectRow(f, x, y, n - 1, on), x + n - 1, y, on);
      MarkedChains(f, RectRow(f, x, y, n - 1, on), RectRow(f, x, y, n, on));
    }
  }

  lemma MarkedSame(f: Picture)
    ensures Marked(f, f)
  {
  }

  lemma {:induction false} RowsAreMarked(f: Picture, x: nat, y: nat, w: nat, n: nat, on: bool)
    ensures Marked(f, RectRows(f, x, y, w, n, on))
  {
    hide RectRow, Marked;
    if n == 0 {
      MarkedSame(f);
    } else {
      RowsAreMarked(f, x, y, w, n - 1, on);
      RowIsMarked(RectRows(f, x, y, w, n - 1, on), x, y + n - 1, w, on);
      MarkedChains(f, RectRows(f, x, y, w, n - 1, on), RectRows(f, x, y, w, n, on));
    }
  }

  // ------------------------------------------------------------- adopting a frame

  /** After the first `n` pages: those are the other's, and the rest are as they were. */
  lemma {:induction false} CopyAdoptsBytes(f: Picture, other: Buffer, n: nat)
    requires n <= PAGES
    ensures var g := CopyPages(f, other, n);
            forall i | 0 <= i < BUFFER_LEN :: g.buf[i] == if i < n * COLUMNS then other[i] else f.buf[i]
  {
    hide CopyPages, WithPage;
    if n == 0 {
      CopyNone(f, other);
    } else {
      CopyAdoptsBytes(f, other, n - 1);
      CopyOne(f, other, n - 1);
      WithPageBytes(CopyPages(f, other, n - 1), other, n - 1);
      SameRange(CopyPages(f, other, n - 1).buf, other, (n - 1) * COLUMNS, n * COLUMNS);
    }
  }

  lemma WithPageBytes(f: Picture, other: Buffer, page: nat)
    requires page < PAGES
    ensures forall i | 0 <= i < BUFFER_LEN ::
              WithPage(f, other, page).buf[i]
              == if page * COLUMNS <= i < (page + 1) * COLUMNS then other[i] else f.buf[i]
  {
  }

  lemma SameRange(a: Buffer, b: Buffer, from: nat, to: nat)
    requires from <= to <= BUFFER_LEN
    ensures a[from..to] == b[from..to] <==> forall i | from <= i < to :: a[i] == b[i]
  {
    if a[from..to] == b[from..to] {
      forall i | from <= i < to ensures a[i] == b[i] {
        assert a[from..to][i - from] == b[from..to][i - from];
      }
    }
  }

  /** And a page is marked exactly if it was or if the two differed there. */
  lemma {:induction false} CopyAdoptsMarks(f: Picture, other: Buffer, n: nat, q: nat)
    requires n <= PAGES && q < PAGES
    ensures CopyPages(f, other, n).IsDirty(q)
       <==> f.IsDirty(q) || (q < n && PageOf(f.buf, q) != PageOf(other, q))
  {
    hide CopyPages, Has16, With16, PageBit, PageOf;
    if n == 0 {
      CopyNone(f, other);
    } else {
      var page, g := n - 1, CopyPages(f, other, n - 1);
      CopyAdoptsMarks(f, other, page, q);
      CopyAdoptsBytes(f, other, page);
      CopyOne(f, other, page);
      MarkingSetsOneBit(g.dirty, page, q);
      PageUnchanged(g.buf, f.buf, page);
      PageIs(g.buf, page);
      PageIs(other, page);
    }
  }

  lemma PageIs(buf: Buffer, page: nat)
    requires page < PAGES
    ensures PageOf(buf, page) == buf[page * COLUMNS..(page + 1) * COLUMNS]
  {
  }

  lemma PageUnchanged(a: Buffer, b: Buffer, page: nat)
    requires page < PAGES && forall i | page * COLUMNS <= i < BUFFER_LEN :: a[i] == b[i]
    ensures PageOf(a, page) == PageOf(b, page)
  {
    PageEqual(a, b, page);
  }

  lemma PageEqual(a: Buffer, b: Buffer, page: nat)
    requires page < PAGES
    ensures PageOf(a, page) == PageOf(b, page) <==>
            forall i | page * COLUMNS <= i < page * COLUMNS + COLUMNS :: a[i] == b[i]
  {
    if PageOf(a, page) == PageOf(b, page) {
      forall i | page * COLUMNS <= i < page * COLUMNS + COLUMNS ensures a[i] == b[i] {
        assert PageOf(a, page)[i - page * COLUMNS] == PageOf(b, page)[i - page * COLUMNS];
      }
    }
  }

  /** `copy_from` adopts the other frame whole, and marks exactly the pages that differ. */
  lemma CopyFromAdopts(f: Picture, other: Buffer)
    ensures CopyPages(f, other, PAGES).buf == other
    ensures forall page | 0 <= page < PAGES ::
              CopyPages(f, other, PAGES).IsDirty(page)
              <==> f.IsDirty(page) || PageOf(f.buf, page) != PageOf(other, page)
    ensures Marked(f, CopyPages(f, other, PAGES))
  {
    hide CopyPages, Has16, PageOf;
    CopyAdoptsBytes(f, other, PAGES);
    var g := CopyPages(f, other, PAGES);
    forall page | 0 <= page < PAGES
      ensures g.IsDirty(page) <==> f.IsDirty(page) || PageOf(f.buf, page) != PageOf(other, page)
    {
      CopyAdoptsMarks(f, other, PAGES, page);
    }
    forall i | 0 <= i < BUFFER_LEN ensures g.buf[i] == f.buf[i] || g.IsDirty(i / COLUMNS) {
      PageEqual(f.buf, other, i / COLUMNS);
    }
  }

  lemma AllBits(bit: nat)
    requires bit < PAGE_HEIGHT
    ensures Has8(0xFF, PixelBit(bit)) && !Has8(0, PixelBit(bit))
  {
    PixelBitTable(bit);
  }

  /** A fill gives every pixel of the panel its value and marks every page; off the panel nothing
      is ever lit, nor does setting a pixel there change anything. */
  lemma FillReadsBack(f: Picture, x: nat, y: nat, on: bool, page: nat)
    requires page < PAGES
    ensures OnPanel(x, y) ==> Fill(on).Pixel(x, y) == on
    ensures Fill(on).IsDirty(page)
    ensures !OnPanel(x, y) ==> !f.Pixel(x, y) && SetPixel(f, x, y, on) == f
  {
    PageBitsAreDistinct(page, page);
    if OnPanel(x, y) {
      AllBits(RamPosition(x, y).value.1);
    }
    hide Has8, PixelBit, Has16, PageBit;
  }
}
