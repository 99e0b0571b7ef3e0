/** What packing and unpacking promise each other. */
module MsgpackLaws {
  import opened Bytes
  import opened Results
  import opened PythonValues
  import opened Msgpack

  // ------------------------------------------- an encoding means one thing anywhere

  lemma SliceOfSlice(b: seq<Byte>, i: nat, c: seq<Byte>, j: nat, n: nat, from: nat, to: nat)
    requires i + n <= |b| && At(c, j, b[i..i + n])
    requires from <= to <= n
    ensures c[j + from..j + to] == b[i + from..i + to]
  {
    var p := b[i..i + n];
    var s, t := c[j + from..j + to], b[i + from..i + to];
    forall k | 0 <= k < to - from ensures s[k] == t[k] {
      AtInside(c, j, p, from + k);
    }
  }

  lemma TakeRelocates(b: seq<Byte>, i: nat, c: seq<Byte>, j: nat, n: nat, k: nat, m: nat)
    requires i + n <= |b| && At(c, j, b[i..i + n])
    requires k + 1 + m <= n
    ensures Take(b, i + k, m).Ok? && Take(c, j + k, m) == Take(b, i + k, m)
  {
    SliceOfSlice(b, i, c, j, n, k + 1, k + 1 + m);
  }

  function Moved(h: Head, shift: int): Head
    requires HeadEnd(h) + shift >= 0
  {
    if h.Leaf? then h.(end := h.end + shift) else h.(at := h.at + shift)
  }

  /** What `UnpackHead` reads at `i` depends on nothing but the bytes it steps over. */
  lemma HeadRelocates(b: seq<Byte>, i: nat, c: seq<Byte>, j: nat)
    requires UnpackHead(b, i).Ok?
    requires At(c, j, b[i..HeadEnd(UnpackHead(b, i).value)])
    ensures UnpackHead(c, j) == Ok(Moved(UnpackHead(b, i).value, j - i))
  {
    hide KindOf, FromBigEndian, At, ValidUtf8, Widened, TwosComplement;
    var n := HeadEnd(UnpackHead(b, i).value) - i;
    AtBounds(c, j, b[i..i + n]);
    SliceOfSlice(b, i, c, j, n, 0, 1);
    assert b[i] == b[i..i + 1][0] == c[j..j + 1][0] == c[j];
    var kind := KindOf(b[i]);
    TakeRelocates(b, i, c, j, n, 0, Need(kind));
    if kind.SizedBody? {
      TakeRelocates(b, i, c, j, n, kind.width, n - 1 - kind.width);
    }
  }

  /** An encoding decodes to the same value wherever it stands, whatever is around it. */
  lemma {:induction false} Relocates(b: seq<Byte>, i: nat, c: seq<Byte>, j: nat)
    requires Unpack(b, i).Ok?
    requires At(c, j, b[i..Unpack(b, i).value.end])
    ensures Unpack(c, j) == Ok(Decoded(Unpack(b, i).value.value, Unpack(b, i).value.end - i + j))
    decreases Remaining(b, i), 0
  {
    hide UnpackHead, At;
    var head := UnpackHead(b, i).value;
    var mid, end := HeadEnd(head), Unpack(b, i).value.end;
    AtSlice(b, i, mid, end, c, j);
    HeadRelocates(b, i, c, j);
    match head {
      case Leaf(v, e) =>
      case Items(n, at) => ItemsRelocate(b, at, n, [], c, at - i + j);
      case Entries(n, at) => EntriesRelocate(b, at, n, [], c, at - i + j);
    }
  }

  lemma AtSlice(b: seq<Byte>, i: nat, mid: nat, end: nat, c: seq<Byte>, j: nat)
    requires i <= mid <= end <= |b|
    requires At(c, j, b[i..end])
    ensures At(c, j, b[i..mid]) && At(c, mid - i + j, b[mid..end])
  {
    assert b[i..end] == b[i..mid] + b[mid..end];
    AtConcat(c, j, b[i..mid], b[mid..end]);
  }

  lemma {:induction false} ItemsRelocate(b: seq<Byte>, i: nat, n: nat, out: seq<Value>, c: seq<Byte>, j: nat)
    requires i <= |b| && UnpackItems(b, i, n, out).Ok?
    requires At(c, j, b[i..UnpackItems(b, i, n, out).value.end])
    ensures UnpackItems(c, j, n, out)
         == Ok(Decoded(UnpackItems(b, i, n, out).value.value, UnpackItems(b, i, n, out).value.end - i + j))
    decreases Remaining(b, i), 1
  {
    hide Unpack, At;
    if n > 0 {
      var d, end := Unpack(b, i).value, UnpackItems(b, i, n, out).value.end;
      AtSlice(b, i, d.end, end, c, j);
      Relocates(b, i, c, j);
      ItemsRelocate(b, d.end, n - 1, out + [d.value], c, d.end - i + j);
    }
  }

  lemma {:induction false} EntriesRelocate(b: seq<Byte>, i: nat, n: nat, out: seq<Entry>, c: seq<Byte>, j: nat)
    requires i <= |b| && UnpackEntries(b, i, n, out).Ok?
    requires At(c, j, b[i..UnpackEntries(b, i, n, out).value.end])
    ensures UnpackEntries(c, j, n, out)
         == Ok(Decoded(UnpackEntries(b, i, n, out).value.value, UnpackEntries(b, i, n, out).value.end - i + j))
    decreases Remaining(b, i), 1
  {
    hide Unpack, At;
    if n > 0 {
      var k, end := Unpack(b, i).value, UnpackEntries(b, i, n, out).value.end;
      var v := Unpack(b, k.end).value;
      AtSlice(b, i, k.end, end, c, j);
      Relocates(b, i, c, j);
      AtSlice(b, k.end, v.end, end, c, k.end - i + j);
      Relocates(b, k.end, c, k.end - i + j);
      EntriesRelocate(b, v.end, n - 1, Put(out, k.value, v.value), c, v.end - i + j);
    }
  }

  /** No proper prefix of a valid encoding is a valid encoding. */
  lemma PrefixFree(p: seq<Byte>, q: seq<Byte>)
    requires UnpackAll(p).Ok? && UnpackAll(q).Ok? && p <= q
    ensures p == q
  {
    assert At(q, 0, p[0..|p|]);
    Relocates(p, 0, q, 0);
  }

  // ------------------------------------------------------------- the round trip

  lemma TakeAt(b: seq<Byte>, i: nat, body: seq<Byte>)
    requires At(b, i + 1, body)
    ensures Take(b, i, |body|) == Ok(body)
  {
  }

  lemma TakeAfter(b: seq<Byte>, i: nat, t: Byte, body: seq<Byte>)
    requires At(b, i, [t] + body)
    ensures i < |b| && b[i] == t && Take(b, i, |body|) == Ok(body)
  {
    AtConcat(b, i, [t], body);
    AtInside(b, i, [t], 0);
  }

  lemma KindOfTag(w: nat)
    requires w == 1 || w == 2 || w == 4 || w == 8
    ensures KindOf(Tag(0xCC, w)) == Unsigned(w) && KindOf(Tag(0xD0, w)) == Signed(w)
    ensures w < 8 ==> KindOf(Tag(0xC4, w)) == SizedBody(w, false) && KindOf(Tag(0xD9, w)) == SizedBody(w, true)
  {
  }

  lemma IntHead(n: int, b: seq<Byte>, i: nat)
    requires PackInt(n).Ok? && At(b, i, PackInt(n).value)
    ensures UnpackHead(b, i) == Ok(Leaf(Int(n), i + |PackInt(n).value|))
  {
    hide At, UnpackHead;
    if n > 0x7F {
      FieldHead(Tag(0xCC, UnsignedWidth(n)), UnsignedWidth(n), n, b, i);
    } else if n < -32 {
      var w := SignedWidth(n);
      FieldHead(Tag(0xD0, w), w, n + Pow256(w), b, i);
      assert Tag(0xD0, w) != Tag(0xCC, w);
    } else {
      FixIntHead(n, b, i);
    }
  }

  lemma FixIntHead(n: int, b: seq<Byte>, i: nat)
    requires -32 <= n <= 0x7F && At(b, i, PackInt(n).value)
    ensures UnpackHead(b, i) == Ok(Leaf(Int(n), i + 1))
  {
    AtInside(b, i, PackInt(n).value, 0);
  }

  lemma FieldHead(t: Byte, w: nat, m: nat, b: seq<Byte>, i: nat)
    requires w == 1 || w == 2 || w == 4 || w == 8
    requires t == Tag(0xCC, w) || t == Tag(0xD0, w)
    requires m < Pow256(w)
    requires At(b, i, [t] + BigEndian(m, w))
    ensures UnpackHead(b, i)
         == Ok(Leaf(Int(if t == Tag(0xCC, w) then m else TwosComplement(m, w)), i + 1 + w))
  {
    hide KindOf, At, Tag, FromBigEndian, BigEndian, Pow256, ValidUtf8, Widened, TwosComplement;
    KindOfTag(w);
    TakeAfter(b, i, t, BigEndian(m, w));
    BigEndianInverts(m, w);
  }

  lemma SizedBodyHead(isText: bool, body: seq<Byte>, b: seq<Byte>, i: nat)
    requires isText ==> ValidUtf8(body)
    requires var p := PackSized(if isText then 0xD9 else 0xC4, body); p.Ok? && At(b, i, p.value)
    ensures UnpackHead(b, i)
         == Ok(Leaf(if isText then Text(body) else Bin(body),
                    i + |PackSized(if isText then 0xD9 else 0xC4, body).value|))
  {
    hide UnpackHead, At;
    var w := UnsignedWidth(|body|);
    KindOfTag(w);
    SizedFieldHead(Tag(if isText then 0xD9 else 0xC4, w), w, isText, body, b, i);
  }

  lemma SizedFieldHead(t: Byte, w: nat, isText: bool, body: seq<Byte>, b: seq<Byte>, i: nat)
    requires KindOf(t) == SizedBody(w, isText) && |body| < Pow256(w)
    requires isText ==> ValidUtf8(body)
    requires At(b, i, [t] + BigEndian(|body|, w) + body)
    ensures UnpackHead(b, i) == Ok(Leaf(if isText then Text(body) else Bin(body), i + 1 + w + |body|))
  {
    hide KindOf, At, FromBigEndian, BigEndian, Pow256, ValidUtf8, HeadFrom;
    var field := BigEndian(|body|, w);
    AtConcat(b, i, [t] + field, body);
    TakeAfter(b, i, t, field);
    BigEndianInverts(|body|, w);
    TakeAt(b, i + w, body);
  }

  lemma SizedHead(n: nat, isMap: bool, b: seq<Byte>, i: nat)
    requires Sized(n, isMap).Ok? && At(b, i, Sized(n, isMap).value)
    ensures UnpackHead(b, i) == Ok(Container(n, i + |Sized(n, isMap).value|, isMap))
  {
    var p := Sized(n, isMap).value;
    AtInside(b, i, p, 0);
    if n >= 16 {
      CountHead(p[0], if n < Pow256(2) then 2 else 4, n, isMap, b, i);
    }
  }

  lemma CountHead(t: Byte, w: nat, n: nat, isMap: bool, b: seq<Byte>, i: nat)
    requires KindOf(t) == Counted(w, isMap) && n < Pow256(w)
    requires At(b, i, [t] + BigEndian(n, w))
    ensures UnpackHead(b, i) == Ok(Container(n, i + 1 + w, isMap))
  {
    hide KindOf, At, FromBigEndian, BigEndian, Pow256;
    TakeAfter(b, i, t, BigEndian(n, w));
    BigEndianInverts(n, w);
  }

  lemma ConstantHead(v: Value, b: seq<Byte>, i: nat)
    requires (v.Nil? || v.Bool?) && At(b, i, Pack(v).value)
    ensures UnpackHead(b, i) == Ok(Leaf(v, i + 1)) && |Pack(v).value| == 1
  {
    AtInside(b, i, Pack(v).value, 0);
  }

  lemma FloatHead(bits: seq<Byte>, b: seq<Byte>, i: nat)
    requires |bits| == 8 && At(b, i, [0xCB] + bits)
    ensures UnpackHead(b, i) == Ok(Leaf(Float(bits), i + 9))
  {
    TakeAfter(b, i, 0xCB, bits);
  }

  lemma ShortTextHead(utf8: seq<Byte>, b: seq<Byte>, i: nat)
    requires |utf8| < 32 && ValidUtf8(utf8) && At(b, i, [0xA0 + |utf8| as Byte] + utf8)
    ensures UnpackHead(b, i) == Ok(Leaf(Text(utf8), i + 1 + |utf8|))
  {
    hide KindOf, At, ValidUtf8;
    ShortTextTag(|utf8|);
    TakeAfter(b, i, 0xA0 + |utf8| as Byte, utf8);
  }

  lemma ShortTextTag(n: nat)
    requires n < 32
    ensures KindOf(0xA0 + n as Byte) == Body(n)
  {
  }

  /** Decoding what `packb` wrote, wherever it stands, gives the value back and stops
      exactly at its end. */
  lemma {:induction false} RoundTripAt(v: Value, b: seq<Byte>, i: nat)
    requires Representable(v) && Pack(v).Ok? && At(b, i, Pack(v).value)
    ensures Unpack(b, i) == Ok(Decoded(v, i + |Pack(v).value|))
    decreases v, 0
  {
    hide UnpackHead, PackInt, PackSized, Sized, At, ValidUtf8, DistinctKeys;
    var p := Pack(v).value;
    match v {
      case Nil => ConstantHead(v, b, i);
      case Bool(_) => ConstantHead(v, b, i);
      case Int(n) => IntHead(n, b, i);
      case Float(bits) => FloatHead(bits, b, i);
      case Bin(data) => SizedBodyHead(false, data, b, i);
      case Text(utf8) =>
        if |utf8| < 32 {
          ShortTextHead(utf8, b, i);
        } else {
          SizedBodyHead(true, utf8, b, i);
        }
      case List(items) =>
        var header := Sized(|items|, false).value;
        assert p == header + PackItems(items).value;
        AtConcat(b, i, header, PackItems(items).value);
        SizedHead(|items|, false, b, i);
        ItemsRoundTrip(items, [], b, i + |header|);
        assert [] + items == items;
      case Map(entries) =>
        var header := Sized(|entries|, true).value;
        assert p == header + PackEntries(entries).value;
        AtConcat(b, i, header, PackEntries(entries).value);
        SizedHead(|entries|, true, b, i);
        assert [] + entries == entries;
        EntriesRoundTrip(entries, [], b, i + |header|);
    }
  }

  lemma {:induction false} ItemsRoundTrip(items: seq<Value>, out: seq<Value>, b: seq<Byte>, i: nat)
    requires forall k | 0 <= k < |items| :: Representable(items[k])
    requires PackItems(items).Ok? && At(b, i, PackItems(items).value)
    ensures UnpackItems(b, i, |items|, out) == Ok(Decoded(List(out + items), i + |PackItems(items).value|))
    decreases items, 0
  {
    hide Unpack, Pack, At;
    if items == [] {
      assert out + items == out;
    } else {
      var p, rest := Pack(items[0]).value, PackItems(items[1..]).value;
      AtConcat(b, i, p, rest);
      RoundTripAt(items[0], b, i);
      ItemsRoundTrip(items[1..], out + [items[0]], b, i + |p|);
      assert out + [items[0]] + items[1..] == out + items;
    }
  }

  lemma {:induction false} EntryRoundTrip(entry: Entry, b: seq<Byte>, i: nat)
    requires Representable(entry.key) && Representable(entry.value)
    requires PackEntry(entry).Ok? && At(b, i, PackEntry(entry).value)
    ensures Unpack(b, i) == Ok(Decoded(entry.key, i + |Pack(entry.key).value|))
    ensures Unpack(b, i + |Pack(entry.key).value|) == Ok(Decoded(entry.value, i + |PackEntry(entry).value|))
    decreases entry, 0
  {
    hide Unpack, Pack, At;
    AtConcat(b, i, Pack(entry.key).value, Pack(entry.value).value);
    RoundTripAt(entry.key, b, i);
    RoundTripAt(entry.value, b, i + |Pack(entry.key).value|);
  }

  lemma {:induction false} EntriesRoundTrip(entries: seq<Entry>, out: seq<Entry>, b: seq<Byte>, i: nat)
    requires DistinctKeys(out + entries)
    requires forall k | 0 <= k < |entries| ::
               Hashable(entries[k].key) && Representable(entries[k].key) && Representable(entries[k].value)
    requires PackEntries(entries).Ok? && At(b, i, PackEntries(entries).value)
    ensures UnpackEntries(b, i, |entries|, out) == Ok(Decoded(Map(out + entries), i + |PackEntries(entries).value|))
    decreases entries, 0
  {
    hide Unpack, PackEntry, At, SameKey, Put;
    if entries == [] {
      assert out + entries == out;
    } else {
      var e := entries[0];
      AtConcat(b, i, PackEntry(e).value, PackEntries(entries[1..]).value);
      EntryRoundTrip(e, b, i);
      assert IsNewKey(out, e.key) by {
        forall k | 0 <= k < |out| ensures !SameKey(out[k].key, e.key) {
          assert (out + entries)[k] == out[k] && (out + entries)[|out|] == e;
        }
      }
      PutAppends(out, e.key, e.value);
      assert out + [e] + entries[1..] == out + entries;
      EntriesRoundTrip(entries[1..], out + [e], b, i + |PackEntry(e).value|);
    }
  }

  /** `unpackb(packb(v)) == v`, types and all. */
  lemma {:induction false} RoundTrip(v: Value)
    requires Representable(v) && Pack(v).Ok?
    ensures UnpackAll(Pack(v).value) == Ok(v)
  {
    var p := Pack(v).value;
    assert p[0..0 + |p|] == p;
    RoundTripAt(v, p, 0);
  }

  /** Bytes after a packed value are left alone, and no packed value opens another. */
  lemma PackPrefixFree(v: Value, w: Value, r: seq<Byte>)
    requires Representable(v) && Pack(v).Ok?
    ensures Unpack(Pack(v).value + r, 0) == Ok(Decoded(v, |Pack(v).value|))
    ensures UnpackAll(Pack(v).value + r) == if r == [] then Ok(v) else Err(Trailing(|r|))
    ensures Representable(w) && Pack(w) == Ok(Pack(v).value + r) ==> v == w && r == []
  {
    hide Unpack, Pack, Representable;
    var p := Pack(v).value;
    assert At(p + r, 0, p);
    RoundTripAt(v, p + r, 0);
    if Representable(w) && Pack(w) == Ok(p + r) {
      RoundTrip(w);
    }
  }

  // ---------------------------------------------------------------- what is refused, and why

  /** The type bytes that nothing is read after: 0xC1, 0xC7 to 0xC9 and 0xD4 to 0xD8. */
  lemma UnknownTypes(b: seq<Byte>, i: nat)
    requires i < |b|
    ensures Unpack(b, i) == Err(UnknownType(b[i], i)) <==>
            b[i] == 0xC1 || 0xC7 <= b[i] <= 0xC9 || 0xD4 <= b[i] <= 0xD8
  {
    var known := !(b[i] == 0xC1 || 0xC7 <= b[i] <= 0xC9 || 0xD4 <= b[i] <= 0xD8);
    assert KindOf(b[i]).Unknown? <==> !known;
    hide KindOf, ValidUtf8, Widened, FromBigEndian, TwosComplement, UnpackItems, UnpackEntries;
    if known {
      KnownTypesAreKnown(b, i);
    }
  }

  lemma {:induction false} KnownTypesAreKnown(b: seq<Byte>, i: nat)
    requires i < |b| && !KindOf(b[i]).Unknown?
    ensures Unpack(b, i) != Err(UnknownType(b[i], i))
  {
    hide KindOf, ValidUtf8, Widened, FromBigEndian, TwosComplement, UnpackItems, UnpackEntries;
    if UnpackHead(b, i).Ok? {
      match UnpackHead(b, i).value
      case Items(n, at) => ItemsFailLater(b, at, n, []);
      case Entries(n, at) => EntriesFailLater(b, at, n, []);
      case _ =>
    }
  }

  /** What fails among elements is no earlier than they are. */
  lemma {:induction false} UnknownIsLater(b: seq<Byte>, i: nat)
    ensures Unpack(b, i).Err? && Unpack(b, i).error.UnknownType? ==> Unpack(b, i).error.at >= i
    decreases Remaining(b, i), 0
  {
    hide KindOf, ValidUtf8, Widened, FromBigEndian, TwosComplement;
    if UnpackHead(b, i).Ok? {
      match UnpackHead(b, i).value
      case Items(n, at) => ItemsFailLater(b, at, n, []);
      case Entries(n, at) => EntriesFailLater(b, at, n, []);
      case _ =>
    }
  }

  lemma {:induction false} ItemsFailLater(b: seq<Byte>, i: nat, n: nat, out: seq<Value>)
    requires i <= |b|
    ensures var r := UnpackItems(b, i, n, out); r.Err? && r.error.UnknownType? ==> r.error.at >= i
    decreases Remaining(b, i), 1
  {
    hide Unpack;
    if n > 0 {
      UnknownIsLater(b, i);
      if Unpack(b, i).Ok? {
        ItemsFailLater(b, Unpack(b, i).value.end, n - 1, out + [Unpack(b, i).value.value]);
      }
    }
  }

  lemma {:induction false} EntriesFailLater(b: seq<Byte>, i: nat, n: nat, out: seq<Entry>)
    requires i <= |b|
    ensures var r := UnpackEntries(b, i, n, out); r.Err? && r.error.UnknownType? ==> r.error.at >= i
    decreases Remaining(b, i), 1
  {
    hide Unpack, Put, Hashable;
    if n > 0 {
      UnknownIsLater(b, i);
      if Unpack(b, i).Ok? {
        var k := Unpack(b, i).value;
        UnknownIsLater(b, k.end);
        if Unpack(b, k.end).Ok? {
          var v := Unpack(b, k.end).value;
          EntriesFailLater(b, v.end, n - 1, Put(out, k.value, v.value));
        }
      }
    }
  }

  /** A binary32 is read as the float it widens to. */
  lemma SingleIsWidened(s: seq<Byte>, b: seq<Byte>, i: nat)
    requires |s| == 4 && At(b, i, [0xCA] + s)
    ensures Unpack(b, i) == Ok(Decoded(Float(Widened(s)), i + 5))
  {
    hide Widened, At;
    TakeAfter(b, i, 0xCA, s);
  }

  /** Bytes announced as text that are none, short or long, are refused as such. */
  lemma NotText(s: seq<Byte>, b: seq<Byte>, i: nat)
    requires !ValidUtf8(s)
    ensures |s| < 32 && At(b, i, [0xA0 + |s| as Byte] + s) ==> Unpack(b, i) == Err(BadUtf8)
    ensures PackSized(0xD9, s).Ok? && At(b, i, PackSized(0xD9, s).value) ==> Unpack(b, i) == Err(BadUtf8)
  {
    hide KindOf, At, ValidUtf8, FromBigEndian, BigEndian, Pow256, Tag;
    if |s| < 32 && At(b, i, [0xA0 + |s| as Byte] + s) {
      ShortTextTag(|s|);
      TakeAfter(b, i, 0xA0 + |s| as Byte, s);
    }
    if PackSized(0xD9, s).Ok? && At(b, i, PackSized(0xD9, s).value) {
      var w := UnsignedWidth(|s|);
      var field, t := BigEndian(|s|, w), Tag(0xD9, w);
      KindOfTag(w);
      AtConcat(b, i, [t] + field, s);
      TakeAfter(b, i, t, field);
      BigEndianInverts(|s|, w);
      TakeAt(b, i + w, s);
    }
  }

  /** A list or a map where a key should be is refused as such, once its value is read. */
  lemma ContainersAreNoKeys(b: seq<Byte>, i: nat, n: nat, out: seq<Entry>)
    requires i <= |b| && n > 0 && Unpack(b, i).Ok? && Unpack(b, Unpack(b, i).value.end).Ok?
    ensures var key := Unpack(b, i).value.value;
            key.List? || key.Map? ==> UnpackEntries(b, i, n, out) == Err(UnhashableKey)
  {
    hide Unpack, Put;
  }

  lemma HeadOfPrefix(b: seq<Byte>, i: nat, k: nat)
    requires UnpackHead(b, i).Ok? && k <= |b|
    ensures HeadEnd(UnpackHead(b, i).value) <= k ==> UnpackHead(b[..k], i) == UnpackHead(b, i)
    ensures k < HeadEnd(UnpackHead(b, i).value) ==> UnpackHead(b[..k], i).Err? && UnpackHead(b[..k], i).error.Truncated?
  {
    hide KindOf, FromBigEndian, ValidUtf8, Widened, TwosComplement;
    var c := b[..k];
    if i < k {
      assert c[i] == b[i];
      var kind := KindOf(b[i]);
      TakeOfPrefix(b, i, Need(kind), k);
      if kind.SizedBody? {
        TakeOfPrefix(b, i + kind.width, FromBigEndian(b[i + 1..i + 1 + kind.width]), k);
      }
    }
  }

  lemma TakeOfPrefix(b: seq<Byte>, i: nat, n: nat, k: nat)
    requires k <= |b| && Take(b, i, n).Ok?
    ensures Take(b[..k], i, n) == if i + 1 + n <= k then Take(b, i, n) else Err(Truncated(i))
  {
    if i + 1 + n <= k {
      assert b[..k][i + 1..i + 1 + n] == b[i + 1..i + 1 + n];
    }
  }

  /** An encoding cut short anywhere is refused as cut short, and for nothing else. */
  lemma {:induction false} CutShortIsTruncated(b: seq<Byte>, i: nat, k: nat)
    requires Unpack(b, i).Ok? && k <= |b|
    ensures Unpack(b, i).value.end <= k ==> Unpack(b[..k], i) == Unpack(b, i)
    ensures k < Unpack(b, i).value.end ==> Unpack(b[..k], i).Err? && Unpack(b[..k], i).error.Truncated?
    decreases Remaining(b, i), 0
  {
    hide UnpackHead;
    HeadOfPrefix(b, i, k);
    match UnpackHead(b, i).value
    case Items(n, at) =>
      if at <= k {
        ItemsCutShort(b, at, n, [], k);
      }
    case Entries(n, at) =>
      if at <= k {
        EntriesCutShort(b, at, n, [], k);
      }
    case _ =>
  }

  lemma {:induction false} ItemsCutShort(b: seq<Byte>, i: nat, n: nat, out: seq<Value>, k: nat)
    requires i <= k <= |b| && UnpackItems(b, i, n, out).Ok?
    ensures var r, c := UnpackItems(b, i, n, out), UnpackItems(b[..k], i, n, out);
            (r.value.end <= k ==> c == r) && (k < r.value.end ==> c.Err? && c.error.Truncated?)
    decreases Remaining(b, i), 1
  {
    hide Unpack;
    if n > 0 {
      var d := Unpack(b, i).value;
      CutShortIsTruncated(b, i, k);
      if d.end <= k {
        ItemsCutShort(b, d.end, n - 1, out + [d.value], k);
      }
    }
  }

  lemma {:induction false} EntriesCutShort(b: seq<Byte>, i: nat, n: nat, out: seq<Entry>, k: nat)
    requires i <= k <= |b| && UnpackEntries(b, i, n, out).Ok?
    ensures var r, c := UnpackEntries(b, i, n, out), UnpackEntries(b[..k], i, n, out);
            (r.value.end <= k ==> c == r) && (k < r.value.end ==> c.Err? && c.error.Truncated?)
    decreases Remaining(b, i), 1
  {
    hide Unpack, Put, Hashable;
    if n > 0 {
      var key := Unpack(b, i).value;
      var value := Unpack(b, key.end).value;
      CutShortIsTruncated(b, i, k);
      CutShortIsTruncated(b, key.end, k);
      if value.end <= k {
        EntriesCutShort(b, value.end, n - 1, Put(out, key.value, value.value), k);
      }
    }
  }
}
