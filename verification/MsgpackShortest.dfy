/** What `packb` writes is the shortest there is: no bytes that `unpackb` reads as a value are
    fewer than those `packb` writes for it, but for a float, which is read from five bytes or
    nine and always written in nine. Nothing here names a width. */
module MsgpackShortest {
  import opened Bytes
  import opened Results
  import opened PythonValues
  import opened Msgpack
  import opened MsgpackDomain

  /** How many floats a value holds, at any depth. */
  function Floats(v: Value): nat
    decreases v, 0
  {
    match v
    case Float(_) => 1
    case List(items) => FloatsInItems(items)
    case Map(entries) => FloatsInEntries(entries)
    case _ => 0
  }

  function FloatsInItems(items: seq<Value>): nat
    decreases items, 0
  {
    if items == [] then 0 else Floats(items[0]) + FloatsInItems(items[1..])
  }

  function FloatsInEntry(e: Entry): nat
    decreases e, 0
  {
    Floats(e.key) + Floats(e.value)
  }

  function FloatsInEntries(entries: seq<Entry>): nat
    decreases entries, 0
  {
    if entries == [] then 0 else FloatsInEntry(entries[0]) + FloatsInEntries(entries[1..])
  }

  /** The bytes of a value packed, with each float counted as the five it could have been. */
  function Least(v: Value): int
    requires Pack(v).Ok?
  {
    |Pack(v).value| - 4 * Floats(v)
  }

  function LeastItems(items: seq<Value>): int
    requires PackItems(items).Ok?
  {
    |PackItems(items).value| - 4 * FloatsInItems(items)
  }

  function LeastEntry(e: Entry): int
    requires PackEntry(e).Ok?
  {
    |PackEntry(e).value| - 4 * FloatsInEntry(e)
  }

  function LeastEntries(entries: seq<Entry>): int
    requires PackEntries(entries).Ok?
  {
    |PackEntries(entries).value| - 4 * FloatsInEntries(entries)
  }

  // --------------------------------------------------------------------- one header

  /** A number that fits a field of the format is given no wider one. */
  lemma NoWiderThan(n: nat, w: nat)
    requires (w == 1 || w == 2 || w == 4 || w == 8) && n < Pow256(w)
    ensures 1 <= UnsignedWidth(n) <= w
  {
    PowersOf256();
  }

  lemma NoWiderThanSigned(n: int, w: nat)
    requires (w == 1 || w == 2 || w == 4 || w == 8) && n < 0 && n >= -(Pow256(w) / 2)
    ensures 1 <= SignedWidth(n) <= w
  {
    PowersOf256();
  }

  lemma IntTakesNoMore(n: int, w: nat)
    requires w == 1 || w == 2 || w == 4 || w == 8
    requires -(Pow256(w) / 2) <= n < Pow256(w)
    ensures PackInt(n).Ok? && |PackInt(n).value| <= 1 + w
  {
    hide UnsignedWidth, SignedWidth, Pow256, BigEndian;
    if n >= 0 {
      NoWiderThan(n, w);
    } else {
      NoWiderThanSigned(n, w);
    }
  }

  lemma BodyTakesNoMore(first: Byte, body: seq<Byte>, w: nat)
    requires (w == 1 || w == 2 || w == 4) && |body| < Pow256(w) && first <= 0xFC
    ensures PackSized(first, body).Ok? && |PackSized(first, body).value| <= 1 + w + |body|
  {
    NoWiderThan(|body|, w);
    PowersOf256();
    hide Pow256, BigEndian;
  }

  lemma HeaderTakesNoMore(n: nat, isMap: bool, w: nat)
    requires (w == 0 && n < 16) || ((w == 2 || w == 4) && n < Pow256(w))
    ensures Sized(n, isMap).Ok? && |Sized(n, isMap).value| <= 1 + w
  {
    PowersOf256();
    hide BigEndian, Pow256;
  }

  /** With fewer elements the header is no longer. */
  lemma FewerTakeNoMore(m: nat, n: nat, isMap: bool)
    requires m <= n && Sized(n, isMap).Ok?
    ensures Sized(m, isMap).Ok? && |Sized(m, isMap).value| <= |Sized(n, isMap).value|
  {
    PowersOf256();
    hide BigEndian, Pow256;
  }

  lemma LeafIsShortest(b: seq<Byte>, i: nat)
    requires UnpackHead(b, i).Ok? && UnpackHead(b, i).value.Leaf?
    ensures var h := UnpackHead(b, i).value;
            Pack(h.value).Ok? && Least(h.value) <= h.end - i
  {
    hide FromBigEndian, Pow256, ValidUtf8, Widened, PackInt, PackSized, Sized, KindOf, TwosComplement;
    var kind, h := KindOf(b[i]), UnpackHead(b, i).value;
    KindBounds(b[i]);
    match kind
    case Immediate(v) => ImmediateIsShortest(b[i]);
    case SizedBody(w, _) =>
      BodyTakesNoMore(0xC4, b[i + 1 + w..h.end], w);
      BodyTakesNoMore(0xD9, b[i + 1 + w..h.end], w);
    case Unsigned(w) =>
      TwosComplementRange(0, w);
      IntTakesNoMore(h.value.n, w);
    case Signed(w) =>
      TwosComplementRange(FromBigEndian(b[i + 1..i + 1 + w]), w);
      IntTakesNoMore(h.value.n, w);
    case _ =>
  }

  lemma TwosComplementRange(n: nat, w: nat)
    requires 0 < w && n < Pow256(w)
    ensures -(Pow256(w) / 2) <= 0 < Pow256(w) && -(Pow256(w) / 2) <= TwosComplement(n, w) < Pow256(w)
  {
  }

  lemma ImmediateIsShortest(t: Byte)
    requires KindOf(t).Immediate?
    ensures var v := KindOf(t).value; Pack(v).Ok? && |Pack(v).value| == 1 && Floats(v) == 0
  {
  }

  // ---------------------------------------------------------------------- whole values

  lemma {:induction false} FloatsAreLong(v: Value)
    requires Representable(v) && Pack(v).Ok?
    ensures Least(v) >= 0
    decreases v, 0
  {
    hide PackInt, PackSized, Sized, DistinctKeys, Hashable, ValidUtf8;
    match v {
      case List(items) => ItemsAreLong(items);
      case Map(entries) => EntriesAreLong(entries);
      case _ =>
    }
  }

  lemma {:induction false} ItemsAreLong(items: seq<Value>)
    requires PackItems(items).Ok? && forall k | 0 <= k < |items| :: Representable(items[k])
    ensures LeastItems(items) >= 0
    decreases items, 0
  {
    hide Pack, Floats;
    if items != [] {
      FloatsAreLong(items[0]);
      ItemsAreLong(items[1..]);
    }
  }

  lemma {:induction false} EntriesAreLong(entries: seq<Entry>)
    requires PackEntries(entries).Ok?
    requires forall k | 0 <= k < |entries| :: Representable(entries[k].key) && Representable(entries[k].value)
    ensures LeastEntries(entries) >= 0
    decreases entries, 0
  {
    hide Pack, Floats;
    if entries != [] {
      EntryIsLong(entries[0]);
      EntriesAreLong(entries[1..]);
    }
  }

  lemma {:induction false} EntryIsLong(e: Entry)
    requires PackEntry(e).Ok? && Representable(e.key) && Representable(e.value)
    ensures LeastEntry(e) >= 0 && Least(e.key) >= 0 && Least(e.value) >= 0
    decreases e, 0
  {
    hide Pack, Floats;
    FloatsAreLong(e.key);
    FloatsAreLong(e.value);
  }

  lemma {:induction false} OneMoreItem(items: seq<Value>, v: Value)
    requires PackItems(items).Ok? && Pack(v).Ok?
    ensures PackItems(items + [v]).Ok? && LeastItems(items + [v]) == LeastItems(items) + Least(v)
  {
    hide Pack, Floats;
    if items == [] {
      assert (items + [v])[1..] == [];
    } else {
      OneMoreItem(items[1..], v);
      assert (items + [v])[1..] == items[1..] + [v];
    }
  }

  /** Assigning to a key adds no more than the key and the value take, and takes away what the
      key held before. */
  lemma {:induction false} AssignmentAddsNoMore(out: seq<Entry>, key: Value, value: Value)
    requires PackEntries(out).Ok? && Pack(key).Ok? && Pack(value).Ok?
    requires Representable(key) && forall k | 0 <= k < |out| :: Representable(out[k].value)
    ensures var r := Put(out, key, value);
            PackEntries(r).Ok? && LeastEntries(r) <= LeastEntries(out) + Least(key) + Least(value)
  {
    hide Pack, Floats, SameKey, Representable;
    FloatsAreLong(key);
    var r := Put(out, key, value);
    if out == [] {
      assert r[1..] == [];
      assert LeastEntry(r[0]) == Least(key) + Least(value);
    } else {
      FloatsAreLong(out[0].value);
      AssignmentAddsNoMore(out[1..], key, value);
      assert LeastEntry(out[0]) == Least(out[0].key) + Least(out[0].value);
      if SameKey(out[0].key, key) {
        assert r[1..] == out[1..];
        assert LeastEntry(r[0]) == Least(out[0].key) + Least(value);
      } else {
        assert r[1..] == Put(out[1..], key, value);
      }
    }
  }

  /** Of all the encodings of a value, wherever they stand, none is shorter than packed. */
  lemma {:induction false} NoneIsShorterAt(b: seq<Byte>, i: nat)
    requires Unpack(b, i).Ok?
    ensures var d := Unpack(b, i).value;
            Pack(d.value).Ok? && Least(d.value) <= d.end - i
    decreases Remaining(b, i), 0
  {
    hide UnpackHead, PackItems, PackEntries, PackInt, PackSized, Sized;
    hide FloatsInItems, FloatsInEntries;
    match UnpackHead(b, i).value {
      case Leaf(_, _) => LeafIsShortest(b, i);
      case Items(n, at) =>
        NoItems();
        ItemsNoneShorter(b, at, n, []);
        HeaderIsShortest(b, i);
      case Entries(n, at) =>
        NoItems();
        EntriesNoneShorter(b, at, n, []);
        HeaderIsShortest(b, i);
        FewerTakeNoMore(|Unpack(b, i).value.value.entries|, n, true);
    }
  }

  lemma HeaderIsShortest(b: seq<Byte>, i: nat)
    requires UnpackHead(b, i).Ok? && !UnpackHead(b, i).value.Leaf?
    ensures var h := UnpackHead(b, i).value;
            Sized(h.count, h.Entries?).Ok? && |Sized(h.count, h.Entries?).value| <= h.at - i
  {
    hide FromBigEndian, Pow256, ValidUtf8, Widened, Sized, KindOf, TwosComplement;
    KindBounds(b[i]);
    match KindOf(b[i])
    case Elements(n, isMap) => HeaderTakesNoMore(n, isMap, 0);
    case Counted(w, isMap) => HeaderTakesNoMore(FromBigEndian(b[i + 1..i + 1 + w]), isMap, w);
    case _ =>
  }

  lemma NoItems()
    ensures PackItems([]) == Ok([]) && FloatsInItems([]) == 0
    ensures PackEntries([]) == Ok([]) && FloatsInEntries([]) == 0
  {
  }

  lemma {:induction false} ItemsNoneShorter(b: seq<Byte>, i: nat, n: nat, out: seq<Value>)
    requires i <= |b| && UnpackItems(b, i, n, out).Ok? && PackItems(out).Ok?
    ensures var d := UnpackItems(b, i, n, out).value;
            && d.value.List? && |d.value.items| == |out| + n
            && PackItems(d.value.items).Ok? && LeastItems(d.value.items) <= LeastItems(out) + d.end - i
    decreases Remaining(b, i), 1
  {
    hide Unpack, Pack, PackItems, Least, LeastItems;
    if n > 0 {
      var d := Unpack(b, i).value;
      NoneIsShorterAt(b, i);
      OneMoreItem(out, d.value);
      ItemsNoneShorter(b, d.end, n - 1, out + [d.value]);
    }
  }

  lemma {:induction false} EntriesNoneShorter(b: seq<Byte>, i: nat, n: nat, out: seq<Entry>)
    requires i <= |b| && UnpackEntries(b, i, n, out).Ok? && PackEntries(out).Ok?
    requires forall k | 0 <= k < |out| :: Representable(out[k].value)
    ensures var d := UnpackEntries(b, i, n, out).value;
            && d.value.Map? && |d.value.entries| <= |out| + n
            && PackEntries(d.value.entries).Ok? && LeastEntries(d.value.entries) <= LeastEntries(out) + d.end - i
    decreases Remaining(b, i), 1
  {
    hide Unpack, Pack, PackEntries, Least, LeastEntries, Put, SameKey, Representable, Hashable;
    if n > 0 {
      var k := Unpack(b, i).value;
      var v := Unpack(b, k.end).value;
      NoneIsShorterAt(b, i);
      NoneIsShorterAt(b, k.end);
      UnpackedIsRepresentable(b, i);
      UnpackedIsRepresentable(b, k.end);
      AssignmentAddsNoMore(out, k.value, v.value);
      PutKeepsKeys(out, k.value, v.value);
      EntriesNoneShorter(b, v.end, n - 1, Put(out, k.value, v.value));
    }
  }

  lemma {:induction false} UnpackedIsRepresentable(b: seq<Byte>, i: nat)
    requires Unpack(b, i).Ok?
    ensures Representable(Unpack(b, i).value.value)
  {
    UnpackedIsSound(b, i);
  }

  /** Bytes read as a value are at least as many as `packb` writes for it, but for four a
      float. */
  lemma {:induction false} PackedIsShortest(b: seq<Byte>)
    requires UnpackAll(b).Ok?
    ensures var v := UnpackAll(b).value;
            Pack(v).Ok? && |Pack(v).value| <= |b| + 4 * Floats(v)
  {
    hide Unpack, Pack, Floats;
    NoneIsShorterAt(b, 0);
  }

  // ------------------------------------------------------------- and of the shortest, one

  lemma {:induction false} BigEndianOf(s: seq<Byte>)
    ensures BigEndian(FromBigEndian(s), |s|) == s
  {
    if s != [] {
      BigEndianOf(s[..|s| - 1]);
      assert s == s[..|s| - 1] + [s[|s| - 1]];
    }
  }

  lemma TagOf(t: Byte, w: nat)
    requires KindOf(t) == Unsigned(w) || KindOf(t) == Signed(w)
    ensures t == if KindOf(t).Unsigned? then Tag(0xCC, w) else Tag(0xD0, w)
  {
  }

  lemma SignedFieldSpells(n: nat, w: nat)
    requires n < Pow256(w)
    ensures TwosComplement(n, w) < 0 ==> TwosComplement(n, w) + Pow256(w) == n
  {
  }

  /** An integer has at most two shortest encodings, unsigned and signed, and is written the
      first way. */
  lemma {:induction false} IntegersAreUnsigned(b: seq<Byte>, n: int)
    requires UnpackAll(b) == Ok(Int(n))
    ensures PackInt(n).Ok? && |PackInt(n).value| <= |b|
    ensures |b| == |PackInt(n).value| ==> b == PackInt(n).value || PackInt(n).value[0] < b[0]
  {
    hide FromBigEndian, BigEndian, Pow256, ValidUtf8, Widened, KindOf, TwosComplement, Tag, UnpackItems, UnpackEntries;
    NoneIsShorterAt(b, 0);
    KindBounds(b[0]);
    OnlyHeadsMakeInts(b);
    var kind, field := KindOf(b[0]), b[1..];
    if kind.Immediate? {
      ImmediateIsPacked(b[0]);
      assert b == [b[0]];
    } else {
      var w := kind.width;
      assert b == [b[0]] + field;
      TagOf(b[0], w);
      BigEndianOf(field);
      SignedFieldSpells(FromBigEndian(field), w);
      if |PackInt(n).value| == |b| {
        TagsOfWidth(n, w);
      }
    }
  }

  lemma ImmediateIsPacked(t: Byte)
    requires KindOf(t).Immediate? && KindOf(t).value.Int?
    ensures PackInt(KindOf(t).value.n) == Ok([t])
  {
  }

  lemma OnlyHeadsMakeInts(b: seq<Byte>)
    requires UnpackAll(b).Ok? && UnpackAll(b).value.Int?
    ensures b != []
    ensures var kind := KindOf(b[0]);
            (kind.Immediate? && |b| == 1 && kind.value == UnpackAll(b).value)
            || ((kind.Unsigned? || kind.Signed?) && |b| == 1 + kind.width
                && UnpackAll(b).value.n
                   == if kind.Unsigned? then FromBigEndian(b[1..])
                      else TwosComplement(FromBigEndian(b[1..]), kind.width))
  {
    hide FromBigEndian, Pow256, ValidUtf8, Widened, TwosComplement, KindOf;
    KindBounds(b[0]);
    OnlyListsFromItems(b);
    if KindOf(b[0]).Unsigned? || KindOf(b[0]).Signed? {
      assert b[1..1 + KindOf(b[0]).width] == b[1..];
    }
  }

  /** Elements make a list or a map, and no number. */
  lemma OnlyListsFromItems(b: seq<Byte>)
    requires UnpackAll(b).Ok? && UnpackAll(b).value.Int?
    ensures UnpackHead(b, 0).value.Leaf?
  {
    hide UnpackHead;
    NoItems();
    match UnpackHead(b, 0).value
    case Items(n, at) => ItemsNoneShorter(b, at, n, []);
    case Entries(n, at) => EntriesNoneShorter(b, at, n, []);
    case _ =>
  }

  lemma TagsOfWidth(n: int, w: nat)
    requires PackInt(n).Ok? && |PackInt(n).value| == 1 + w
    ensures w == 1 || w == 2 || w == 4 || w == 8 || w == 0
    ensures w > 0 && n >= 0 ==>
            PackInt(n).value == [Tag(0xCC, w)] + BigEndian(n, w) && Tag(0xCC, w) < Tag(0xD0, w)
    ensures w > 0 && n < 0 ==> n + Pow256(w) >= 0 && PackInt(n).value == [Tag(0xD0, w)] + BigEndian(n + Pow256(w), w)
  {
    hide BigEndian, Pow256;
  }
}
