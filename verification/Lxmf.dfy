/** `parse_lxmf`: an LXMF message and the part of it that is hashed. */
module Lxmf {
  import opened Bytes
  import opened Results
  import opened PythonValues
  import opened Msgpack
  import opened MsgpackLaws
  import opened ArraySpans

  const HASH_LEN := 16
  const SIGNATURE_OFFSET := 32
  const PAYLOAD_OFFSET := 96

  datatype Message = Message(
    destination: seq<Byte>,
    source: seq<Byte>,
    signature: seq<Byte>,
    timestamp: seq<Byte>,
    title: seq<Byte>,
    content: seq<Byte>,
    fields: seq<Entry>,
    stamp: Value,
    hashedPart: seq<Byte>)

  datatype LxmfError =
    | TooShort(length: nat)
    | Payload(error: UnpackError)
    | ElementCount(n: nat)
    | NotAFloat
    | NotBytes
    | NotAMap

  /** The bytes of the first four elements. */
  function Elements4(payload: seq<Byte>, spans: seq<Span>): seq<Byte>
    requires |spans| >= 4 && spans[0].start <= spans[3].end <= |payload|
  {
    payload[spans[0].start..spans[3].end]
  }

  /** `parse_lxmf`. */
  function Parse(lxmf: seq<Byte>): Result<Message, LxmfError> {
    if |lxmf| <= PAYLOAD_OFFSET then Err(TooShort(|lxmf|)) else
    var payload := lxmf[PAYLOAD_OFFSET..];
    match Spans(payload)
    case Err(e) => Err(Payload(e))
    case Ok(spans) =>
      if |spans| != 4 && |spans| != 5 then Err(ElementCount(|spans|))
      else if !spans[0].value.Float? then Err(NotAFloat)
      else if !spans[1].value.Bin? || !spans[2].value.Bin? then Err(NotBytes)
      else if !spans[3].value.Map? then Err(NotAMap)
      else
        SpansInOrder(payload, spans);
        Ok(Message(
          lxmf[..HASH_LEN],
          lxmf[HASH_LEN..SIGNATURE_OFFSET],
          lxmf[SIGNATURE_OFFSET..PAYLOAD_OFFSET],
          spans[0].value.bits,
          spans[1].value.data,
          spans[2].value.data,
          spans[3].value.entries,
          if |spans| == 5 then spans[4].value else Nil,
          lxmf[..SIGNATURE_OFFSET]
          + (if |spans| == 5 then [0x94] + Elements4(payload, spans) else payload)))
  }

  /** Why a message is refused, what comes first first; nothing if it is not. `v` is what its
      payload unpacks to. */
  predicate IsWhy(lxmf: seq<Byte>, v: Result<Value, UnpackError>, e: LxmfError) {
    if |lxmf| <= 96 then e == TooShort(|lxmf|)
    else if v.Err? || !v.value.List? then e.Payload?
    else if |v.value.items| != 4 && |v.value.items| != 5 then e == ElementCount(|v.value.items|)
    else if !v.value.items[0].Float? then e == NotAFloat
    else if !v.value.items[1].Bin? || !v.value.items[2].Bin? then e == NotBytes
    else !v.value.items[3].Map? && e == NotAMap
  }

  /** A message is parsed exactly when its payload unpacks to a list of a float, two byte strings,
      a map and perhaps a stamp; its parts are those, and the bytes in front are 16 of
      destination, 16 of source and 64 of signature. */
  lemma {:induction false} ParseSays(lxmf: seq<Byte>)
    ensures var v := UnpackAll(if |lxmf| >= 96 then lxmf[96..] else []);
            && (Parse(lxmf).Err? ==> IsWhy(lxmf, v, Parse(lxmf).error))
            && (Parse(lxmf).Ok? ==>
                  && |lxmf| > 96 && v.Ok? && v.value.List? && 4 <= |v.value.items| <= 5
                  && var m := Parse(lxmf).value; var items := v.value.items;
                     && m.destination == lxmf[..16] && m.source == lxmf[16..32] && m.signature == lxmf[32..96]
                     && items[0] == Float(m.timestamp) && items[1] == Bin(m.title) && items[2] == Bin(m.content)
                     && items[3] == Map(m.fields) && m.stamp == if |items| == 5 then items[4] else Nil)
  {
    hide Spans, UnpackAll, Elements4;
    if |lxmf| > 96 {
      SpansAgreeWithUnpacking(lxmf[96..]);
    }
  }

  // ------------------------------------------------------------ what is hashed

  /** Where a payload's elements are: four between the header and `Cut`, then the stamp. */
  lemma SpansInOrder(payload: seq<Byte>, spans: seq<Span>)
    requires Spans(payload) == Ok(spans) && 4 <= |spans| <= 5
    ensures var h := ArrayHeader(payload).value.length; var cut := spans[3].end;
            && spans[0].start == h < cut <= |payload|
            && ArrayHeader(payload) == Ok(Header(h, |spans|))
            && Tiles(payload, h, spans[..4], cut)
            && Tiles(payload, cut, spans[4..], |payload|)
            && (|spans| == 4 ==> cut == |payload|)
  {
    SpansAreTheTiling(payload, spans);
    var h := ArrayHeader(payload).value.length;
    TilesSplit(payload, h, spans, 4, |payload|);
    TilesSplit(payload, h, spans, 0, |payload|);
  }

  lemma OneByteHeader(c: seq<Byte>)
    requires c != [] && 0x90 <= c[0] <= 0x9F
    ensures ArrayHeader(c) == Ok(Header(1, (c[0] - 0x90) as nat))
  {
  }

  /** The first four elements as a payload of their own, under the one-byte header. */
  lemma HeadedAgain(payload: seq<Byte>, spans: seq<Span>)
    requires Spans(payload) == Ok(spans) && 4 <= |spans| <= 5
    requires spans[0].start <= spans[3].end <= |payload|
    ensures var c := [0x94] + Elements4(payload, spans);
            Spans(c).Ok? && |Spans(c).value| == 4 && Values(Spans(c).value) == Values(spans[..4])
  {
    hide Spans, ArrayHeader, Unpack, Tiles, Values, At;
    var c := [0x94] + Elements4(payload, spans);
    OneByteHeader(c);
    SpansInOrder(payload, spans);
    var from, cut := spans[0].start, spans[3].end;
    AtAfterHeader(0x94, payload[from..cut], []);
    assert c + [] == c;
    var moved := TilesRelocate(payload, from, spans[..4], cut, c, 1);
    assert |moved| == |Values(moved)| == |Values(spans[..4])| == 4;
    SpansAreTheTiling(c, moved);
  }

  /** What is hashed, after the two hashes in front, is itself a payload of the message's
      timestamp, title, content and fields. */
  lemma {:induction false} HashedPartDecodes(lxmf: seq<Byte>)
    requires Parse(lxmf).Ok?
    ensures var m := Parse(lxmf).value;
            && |m.hashedPart| > SIGNATURE_OFFSET
            && m.hashedPart[..HASH_LEN] == m.destination
            && m.hashedPart[HASH_LEN..SIGNATURE_OFFSET] == m.source
            && Spans(m.hashedPart[SIGNATURE_OFFSET..]).Ok?
            && Values(Spans(m.hashedPart[SIGNATURE_OFFSET..]).value)
               == [Float(m.timestamp), Bin(m.title), Bin(m.content), Map(m.fields)]
  {
    hide Spans, Values, Elements4;
    var m, payload := Parse(lxmf).value, lxmf[PAYLOAD_OFFSET..];
    var spans := Spans(payload).value;
    assert m.hashedPart[..SIGNATURE_OFFSET] == lxmf[..SIGNATURE_OFFSET];
    assert m.hashedPart[..HASH_LEN] == m.hashedPart[..SIGNATURE_OFFSET][..HASH_LEN];
    SpansInOrder(payload, spans);
    FirstFour(spans);
    if |spans| == 5 {
      HeadedAgain(payload, spans);
      assert m.hashedPart[SIGNATURE_OFFSET..] == [0x94] + Elements4(payload, spans);
    } else {
      assert m.hashedPart[SIGNATURE_OFFSET..] == payload;
      assert spans[..4] == spans;
    }
  }

  lemma FirstFour(spans: seq<Span>)
    requires |spans| >= 4
    ensures Values(spans[..4]) == [spans[0].value, spans[1].value, spans[2].value, spans[3].value]
  {
  }

  /** Two messages with the same hashed part say the same thing: only the signature, which
      covers it, and the stamp are outside. */
  lemma {:induction false} HashedPartDecides(a: seq<Byte>, b: seq<Byte>)
    requires Parse(a).Ok? && Parse(b).Ok? && Parse(a).value.hashedPart == Parse(b).value.hashedPart
    ensures Parse(b).value
         == Parse(a).value.(signature := Parse(b).value.signature, stamp := Parse(b).value.stamp)
  {
    HashedPartDecodes(a);
    HashedPartDecodes(b);
    hide Parse;
    var m, n := Parse(a).value, Parse(b).value;
    var vs := Values(Spans(m.hashedPart[SIGNATURE_OFFSET..]).value);
    assert vs[0] == Float(m.timestamp) == Float(n.timestamp) && vs[1] == Bin(m.title) == Bin(n.title);
    assert vs[2] == Bin(m.content) == Bin(n.content) && vs[3] == Map(m.fields) == Map(n.fields);
  }

  // ------------------------------------------------------------------- stamping

  /** A four-element message with an encoded stamp added as its fifth element. */
  function Stamped(lxmf: seq<Byte>, stamp: seq<Byte>): seq<Byte>
    requires |lxmf| > PAYLOAD_OFFSET && ArrayHeader(lxmf[PAYLOAD_OFFSET..]).Ok?
  {
    var payload := lxmf[PAYLOAD_OFFSET..];
    lxmf[..PAYLOAD_OFFSET] + [0x95] + payload[ArrayHeader(payload).value.length..] + stamp
  }

  lemma StampEncoding(front: seq<Byte>, stamp: seq<Byte>)
    requires UnpackAll(stamp).Ok?
    ensures Unpack(front + stamp, |front|) == Ok(Decoded(UnpackAll(stamp).value, |front + stamp|))
  {
    hide Unpack;
    var c := front + stamp;
    assert c[|front|..|front| + |stamp|] == stamp == stamp[0..|stamp|];
    Relocates(stamp, 0, c, |front|);
  }

  /** The payload of a stamped message, `front` being its new header and old elements. */
  lemma StampedSpans(payload: seq<Byte>, spans: seq<Span>, stamp: seq<Byte>, front: seq<Byte>)
    requires Spans(payload) == Ok(spans) && |spans| == 4 && UnpackAll(stamp).Ok?
    requires front == [0x95] + payload[ArrayHeader(payload).value.length..]
    ensures var c := front + stamp;
            && Spans(c).Ok? && Values(Spans(c).value) == Values(spans) + [UnpackAll(stamp).value]
            && Spans(c).value[0].start == 1 && Spans(c).value[3].end == |front|
  {
    hide Unpack, At, Tiles, Spans, ArrayHeader, Values;
    var c := front + stamp;
    OneByteHeader(c);
    SpansInOrder(payload, spans);
    var from := spans[0].start;
    StampEncoding(front, stamp);
    AtAfterHeader(0x95, payload[from..], stamp);
    assert spans[..4] == spans && payload[from..] == payload[from..|payload|];
    var moved := TilesRelocate(payload, from, spans, |payload|, c, 1);
    assert |moved| == |Values(moved)| == |Values(spans)| == 4;
    var last := Span(UnpackAll(stamp).value, |front|, |c|);
    TilesJoin(c, 1, moved, |front|, last);
    SpansAreTheTiling(c, moved + [last]);
    ValuesAppend(moved, last);
    StartAndEnd(c, moved, |front|);
  }

  lemma ValuesAppend(spans: seq<Span>, s: Span)
    ensures Values(spans + [s]) == Values(spans) + [s.value]
  {
  }

  lemma AtAfterHeader(t: Byte, elements: seq<Byte>, tail: seq<Byte>)
    ensures At([t] + elements + tail, 1, elements)
  {
    var c := [t] + elements + tail;
    assert c[1..1 + |elements|] == elements;
  }

  lemma StartAndEnd(c: seq<Byte>, moved: seq<Span>, end: nat)
    requires |moved| == 4 && 1 <= |c| && Tiles(c, 1, moved, end)
    ensures moved[0].start == 1 && moved[3].end == end
  {
    TilesSplit(c, 1, moved, 4, end);
    hide Unpack;
    assert moved[4..] == [];
  }

  lemma {:induction false} TilesJoin(b: seq<Byte>, from: nat, spans: seq<Span>, mid: nat, s: Span)
    requires Tiles(b, from, spans, mid) && s.start == mid && Unpack(b, mid) == Ok(Decoded(s.value, s.end))
    ensures Tiles(b, from, spans + [s], s.end)
    decreases |spans|
  {
    hide Unpack;
    if spans != [] {
      TilesJoin(b, spans[0].end, spans[1..], mid, s);
      assert (spans + [s])[1..] == spans[1..] + [s];
    } else {
      assert (spans + [s])[1..] == [];
    }
  }

  /** Adding a stamp, whatever it is, changes nothing that is parsed but the stamp; and what
      is hashed stays the same byte for byte exactly when the message was packed with the
      one-byte array header, as LXMF packs it. */
  lemma {:induction false} StampIsCutOut(lxmf: seq<Byte>, stamp: seq<Byte>)
    requires Parse(lxmf).Ok? && |Spans(lxmf[PAYLOAD_OFFSET..]).value| == 4
    requires UnpackAll(stamp).Ok?
    ensures Parse(Stamped(lxmf, stamp)).Ok?
    ensures var m, s := Parse(lxmf).value, Parse(Stamped(lxmf, stamp)).value;
            && s == m.(stamp := UnpackAll(stamp).value, hashedPart := s.hashedPart)
            && (s.hashedPart == m.hashedPart <==> lxmf[PAYLOAD_OFFSET] == 0x94)
  {
    hide Spans, ArrayHeader, Unpack, Tiles, Values;
    var payload := lxmf[PAYLOAD_OFFSET..];
    var spans := Spans(payload).value;
    SpansInOrder(payload, spans);
    var front := [0x95] + payload[ArrayHeader(payload).value.length..];
    StampedSpans(payload, spans, stamp, front);
    SameValues(spans, Spans(front + stamp).value, UnpackAll(stamp).value);
    StampedSplits(lxmf, stamp);
    assert front == (front + stamp)[..|front|] && (front + stamp)[1..|front|] == front[1..];
    HeaderOfFour(payload);
    HashUnchangedIff(lxmf[..SIGNATURE_OFFSET], payload);
  }

  lemma SameValues(spans: seq<Span>, after: seq<Span>, last: Value)
    requires |spans| == 4 && Values(after) == Values(spans) + [last]
    ensures |after| == 5 && after[4].value == last
    ensures forall k | 0 <= k < 4 :: after[k].value == spans[k].value
  {
    assert |Values(after)| == 5;
    forall k | 0 <= k < 4 ensures after[k].value == spans[k].value {
      assert Values(after)[k] == (Values(spans) + [last])[k];
    }
    assert Values(after)[4] == last;
  }

  lemma StampedSplits(lxmf: seq<Byte>, stamp: seq<Byte>)
    requires |lxmf| > PAYLOAD_OFFSET && ArrayHeader(lxmf[PAYLOAD_OFFSET..]).Ok?
    ensures var long := Stamped(lxmf, stamp); var payload := lxmf[PAYLOAD_OFFSET..];
            && |long| > PAYLOAD_OFFSET
            && long[PAYLOAD_OFFSET..] == [0x95] + payload[ArrayHeader(payload).value.length..] + stamp
            && long[..HASH_LEN] == lxmf[..HASH_LEN] && long[..SIGNATURE_OFFSET] == lxmf[..SIGNATURE_OFFSET]
            && long[HASH_LEN..SIGNATURE_OFFSET] == lxmf[HASH_LEN..SIGNATURE_OFFSET]
            && long[SIGNATURE_OFFSET..PAYLOAD_OFFSET] == lxmf[SIGNATURE_OFFSET..PAYLOAD_OFFSET]
  {
    var long, payload := Stamped(lxmf, stamp), lxmf[PAYLOAD_OFFSET..];
    var c := [0x95] + payload[ArrayHeader(payload).value.length..] + stamp;
    hide ArrayHeader;
    assert long == lxmf[..PAYLOAD_OFFSET] + c;
    SamePrefixes(lxmf, long);
  }

  lemma HashUnchangedIff(prefix: seq<Byte>, payload: seq<Byte>)
    requires ArrayHeader(payload).Ok?
    requires ArrayHeader(payload).value.length == 1 <==> payload[0] == 0x94
    ensures prefix + ([0x94] + payload[ArrayHeader(payload).value.length..]) == prefix + payload
            <==> payload[0] == 0x94
  {
    var h := ArrayHeader(payload).value.length;
    hide ArrayHeader;
    var now := prefix + ([0x94] + payload[h..]);
    if payload[0] == 0x94 {
      assert payload == [0x94] + payload[1..];
    } else {
      assert |now| != |prefix + payload|;
    }
  }

  lemma SamePrefixes(a: seq<Byte>, b: seq<Byte>)
    requires |a| >= PAYLOAD_OFFSET && |b| >= PAYLOAD_OFFSET && a[..PAYLOAD_OFFSET] == b[..PAYLOAD_OFFSET]
    ensures a[..HASH_LEN] == b[..HASH_LEN] && a[..SIGNATURE_OFFSET] == b[..SIGNATURE_OFFSET]
    ensures a[HASH_LEN..SIGNATURE_OFFSET] == b[HASH_LEN..SIGNATURE_OFFSET]
    ensures a[SIGNATURE_OFFSET..PAYLOAD_OFFSET] == b[SIGNATURE_OFFSET..PAYLOAD_OFFSET]
  {
    var p := a[..PAYLOAD_OFFSET];
    assert a[..HASH_LEN] == p[..HASH_LEN] && a[..SIGNATURE_OFFSET] == p[..SIGNATURE_OFFSET];
    assert b[..HASH_LEN] == p[..HASH_LEN] && b[..SIGNATURE_OFFSET] == p[..SIGNATURE_OFFSET];
    assert a[HASH_LEN..SIGNATURE_OFFSET] == p[HASH_LEN..SIGNATURE_OFFSET] == b[HASH_LEN..SIGNATURE_OFFSET];
    assert a[SIGNATURE_OFFSET..PAYLOAD_OFFSET] == p[SIGNATURE_OFFSET..] == b[SIGNATURE_OFFSET..PAYLOAD_OFFSET];
  }

  lemma HeaderOfFour(payload: seq<Byte>)
    requires ArrayHeader(payload).Ok? && ArrayHeader(payload).value.count == 4
    ensures ArrayHeader(payload).value.length == 1 <==> payload[0] == 0x94
  {
  }

  // -------------------------------------------------- messages packed by `packb`

  function Content(timestamp: seq<Byte>, title: seq<Byte>, content: seq<Byte>, fields: seq<Entry>): seq<Value> {
    [Float(timestamp), Bin(title), Bin(content), Map(fields)]
  }

  /** `packb` of a message's elements, behind the 96 bytes that open it. */
  function Composed(opening: seq<Byte>, elements: seq<Value>): Result<seq<Byte>, PackError> {
    var payload :- Pack(List(elements));
    Ok(opening + payload)
  }

  /** A message comes back from its own bytes, and what is hashed is all of them but the
      signature. */
  lemma {:induction false} ComposedParses(opening: seq<Byte>, t: seq<Byte>, title: seq<Byte>, content: seq<Byte>,
                                          fields: seq<Entry>)
    requires |opening| == PAYLOAD_OFFSET && Representable(List(Content(t, title, content, fields)))
    requires Composed(opening, Content(t, title, content, fields)).Ok?
    ensures Parse(Composed(opening, Content(t, title, content, fields)).value) == Ok(Message(
              opening[..HASH_LEN], opening[HASH_LEN..SIGNATURE_OFFSET], opening[SIGNATURE_OFFSET..],
              t, title, content, fields, Nil,
              opening[..SIGNATURE_OFFSET] + Pack(List(Content(t, title, content, fields))).value))
  {
    hide Spans, ArrayHeader, Unpack, Tiles, Values, Pack, UnpackAll, Representable;
    var v := List(Content(t, title, content, fields));
    var payload := Pack(v).value;
    var lxmf := opening + payload;
    RoundTrip(v);
    SpansAgreeWithUnpacking(payload);
    FourValues(Spans(payload).value, t, title, content, fields);
    NotEmpty(payload);
    assert lxmf[PAYLOAD_OFFSET..] == payload && lxmf[..PAYLOAD_OFFSET] == opening;
    SamePrefixes(lxmf, opening + [0]);
    assert (opening + [0])[..PAYLOAD_OFFSET] == opening;
    SamePrefixes(opening + [0], opening);
  }

  lemma FourValues(spans: seq<Span>, t: seq<Byte>, title: seq<Byte>, content: seq<Byte>, fields: seq<Entry>)
    requires Values(spans) == Content(t, title, content, fields)
    ensures |spans| == 4
    ensures spans[0].value == Float(t) && spans[1].value == Bin(title)
    ensures spans[2].value == Bin(content) && spans[3].value == Map(fields)
  {
    var vs := Content(t, title, content, fields);
    assert |vs| == |Values(spans)| == 4;
    assert vs[0] == Values(spans)[0] && vs[1] == Values(spans)[1];
    assert vs[2] == Values(spans)[2] && vs[3] == Values(spans)[3];
  }

  lemma NotEmpty(payload: seq<Byte>)
    requires UnpackAll(payload).Ok?
    ensures payload != []
  {
  }

  lemma {:induction false} PackItemsAppend(items: seq<Value>, v: Value)
    ensures PackItems(items + [v]).Ok? <==> PackItems(items).Ok? && Pack(v).Ok?
    ensures PackItems(items + [v]).Ok? ==> PackItems(items + [v]).value == PackItems(items).value + Pack(v).value
  {
    hide Pack;
    if items == [] {
      assert (items + [v])[1..] == [];
    } else {
      PackItemsAppend(items[1..], v);
      assert (items + [v])[1..] == items[1..] + [v];
    }
  }

  /** Composing with a stamp or without one, the message is the same and so is its hash. */
  lemma {:induction false} StampedAndUnstamped(opening: seq<Byte>, t: seq<Byte>, title: seq<Byte>, content: seq<Byte>,
                            fields: seq<Entry>, stamp: Value)
    requires |opening| == PAYLOAD_OFFSET
    requires Representable(List(Content(t, title, content, fields))) && Representable(stamp)
    requires Composed(opening, Content(t, title, content, fields) + [stamp]).Ok?
    ensures Composed(opening, Content(t, title, content, fields)).Ok?
    ensures var plain := Parse(Composed(opening, Content(t, title, content, fields)).value);
            var stamped := Parse(Composed(opening, Content(t, title, content, fields) + [stamp]).value);
            plain.Ok? && stamped == Ok(plain.value.(stamp := stamp))
  {
    hide Spans, ArrayHeader, Unpack, Tiles, Values, Pack, UnpackAll, Representable, Parse, PackItems, Stamped;
    var four := Content(t, title, content, fields);
    PackedArrayAppend(four, stamp);
    var body, tail := PackItems(four).value, Pack(stamp).value;
    ComposedParses(opening, t, title, content, fields);
    RoundTrip(stamp);
    RoundTrip(List(four));
    var payload := [0x94] + body;
    SpansAgreeWithUnpacking(payload);
    FourValues(Spans(payload).value, t, title, content, fields);
    StampedIs(opening, body, tail);
    StampIsCutOut(opening + payload, tail);
  }

  lemma StampedIs(opening: seq<Byte>, body: seq<Byte>, tail: seq<Byte>)
    requires |opening| == PAYLOAD_OFFSET
    ensures (opening + ([0x94] + body))[PAYLOAD_OFFSET..] == [0x94] + body
    ensures Stamped(opening + ([0x94] + body), tail) == opening + ([0x95] + body + tail)
  {
    var payload := [0x94] + body;
    var lxmf := opening + payload;
    OneByteHeader(payload);
    hide ArrayHeader;
    assert lxmf[PAYLOAD_OFFSET..] == payload && lxmf[..PAYLOAD_OFFSET] == opening;
    assert payload[1..] == body;
    assert opening + [0x95] + body + tail == opening + ([0x95] + body + tail);
  }

  lemma PackedArrayAppend(items: seq<Value>, v: Value)
    requires |items| < 15 && Pack(List(items + [v])).Ok?
    ensures PackItems(items).Ok? && Pack(v).Ok?
    ensures Pack(List(items)) == Ok([0x90 + |items| as Byte] + PackItems(items).value)
    ensures Pack(List(items + [v]))
         == Ok([0x90 + |items| as Byte + 1] + PackItems(items).value + Pack(v).value)
  {
    PackItemsAppend(items, v);
    PackedArray(items + [v], PackItems(items + [v]).value);
    PackedArray(items, PackItems(items).value);
    var body, last := PackItems(items).value, Pack(v).value;
    assert forall t: Byte :: [t] + body + last == [t] + (body + last);
  }

  lemma PackedArray(items: seq<Value>, body: seq<Byte>)
    requires |items| < 16 && PackItems(items) == Ok(body)
    ensures Pack(List(items)) == Ok([0x90 + |items| as Byte] + body)
  {
  }

  // ---------------------------------------------- messages packed with a longer header

  /** An array of four, with its count in two bytes. `packb` does not write it; MessagePack
      allows it, and `array_spans` reads it. */
  const LONG_HEADER: seq<Byte> := [0xDC, 0x00, 0x04]

  lemma LongHeaderReads(body: seq<Byte>)
    ensures ArrayHeader(LONG_HEADER + body) == Ok(Header(3, 4))
  {
    var payload := LONG_HEADER + body;
    assert payload[1..3] == [0x00, 0x04] && FromBigEndian([0x00, 0x04]) == 4 by {
      assert [0x00 as Byte, 0x04][..1] == [0x00] && [0x00 as Byte][..0] == [];
    }
  }

  lemma LongSpans(t: seq<Byte>, title: seq<Byte>, content: seq<Byte>, fields: seq<Entry>)
    requires Representable(List(Content(t, title, content, fields)))
    requires PackItems(Content(t, title, content, fields)).Ok?
    ensures var spans := Spans(LONG_HEADER + PackItems(Content(t, title, content, fields)).value);
            spans.Ok? && Values(spans.value) == Content(t, title, content, fields)
  {
    hide Unpack, UnpackItems, SpansFrom, ArrayHeader, PackItems, At;
    var four := Content(t, title, content, fields);
    var body := PackItems(four).value;
    var payload := LONG_HEADER + body;
    LongHeaderReads(body);
    AtEnd(LONG_HEADER, body);
    ItemsRoundTrip(four, [], payload, 3);
    assert [] + four == four && Values([]) == [];
    SpansMatchItems(payload, 3, 4, []);
  }

  lemma AtEnd(front: seq<Byte>, body: seq<Byte>)
    ensures At(front + body, |front|, body)
  {
  }

  /** Any message packed so is read, and any stamp added to it changes what is hashed. */
  lemma StampUnderALongHeader(opening: seq<Byte>, t: seq<Byte>, title: seq<Byte>, content: seq<Byte>,
                              fields: seq<Entry>, stamp: seq<Byte>)
    requires |opening| == PAYLOAD_OFFSET && Representable(List(Content(t, title, content, fields)))
    requires PackItems(Content(t, title, content, fields)).Ok? && UnpackAll(stamp).Ok?
    ensures var payload := LONG_HEADER + PackItems(Content(t, title, content, fields)).value;
            var lxmf := opening + payload;
            && lxmf[PAYLOAD_OFFSET..] == payload && ArrayHeader(payload).Ok?
            && Parse(lxmf).Ok? && Parse(Stamped(lxmf, stamp)).Ok?
            && Parse(lxmf).value.content == Parse(Stamped(lxmf, stamp)).value.content == content
            && Parse(lxmf).value.hashedPart != Parse(Stamped(lxmf, stamp)).value.hashedPart
  {
    hide Spans, ArrayHeader, Unpack, Tiles, Values, PackItems, UnpackAll, Representable, Stamped;
    var body := PackItems(Content(t, title, content, fields)).value;
    var payload := LONG_HEADER + body;
    var lxmf := opening + payload;
    assert lxmf[PAYLOAD_OFFSET..] == payload;
    LongHeaderReads(body);
    LongSpans(t, title, content, fields);
    FourValues(Spans(payload).value, t, title, content, fields);
    ParsesAs(lxmf);
    hide Parse;
    StampIsCutOut(lxmf, stamp);
  }

  lemma ParsesAs(lxmf: seq<Byte>)
    requires |lxmf| > PAYLOAD_OFFSET && Spans(lxmf[PAYLOAD_OFFSET..]).Ok?
    requires var spans := Spans(lxmf[PAYLOAD_OFFSET..]).value;
             |spans| == 4 && spans[0].value.Float? && spans[1].value.Bin? && spans[2].value.Bin? && spans[3].value.Map?
    ensures Parse(lxmf).Ok? && Parse(lxmf).value.content == Spans(lxmf[PAYLOAD_OFFSET..]).value[2].value.data
  {
    hide Spans;
  }

  const NOUGHT: seq<Byte> := [0, 0, 0, 0, 0, 0, 0, 0]

  /** An empty message at time zero, under the long header. */
  const EMPTY_UNDER_A_LONG_HEADER: seq<Byte> :=
    LONG_HEADER + ([0xCB] + NOUGHT + [0xC4, 0x00] + [0xC4, 0x00] + [0x80])

  lemma EmptyPartsPack()
    ensures Pack(Bin([])) == Ok([0xC4, 0x00]) && Pack(Map([])) == Ok([0x80])
    ensures Pack(Float(NOUGHT)) == Ok([0xCB] + NOUGHT)
  {
    assert BigEndian(0, 0) == [] && BigEndian(0, 1) == [0];
    assert Pow256(0) == 1 && Pow256(1) == 0x100 && UnsignedWidth(0) == 1;
    assert PackSized(0xC4, []) == Ok([0xC4] + [0x00] + []) && [0xC4 as Byte] + [0x00] + [] == [0xC4, 0x00];
    assert PackEntries([]) == Ok([]) && Sized(0, true) == Ok([0x80]);
    assert [0x80 as Byte] + [] == [0x80];
  }

  lemma OnePacksFirst(v: Value, items: seq<Value>)
    requires Pack(v).Ok? && PackItems(items).Ok?
    ensures PackItems([v] + items) == Ok(Pack(v).value + PackItems(items).value)
  {
    hide Pack;
    assert ([v] + items)[1..] == items;
  }

  lemma EmptyMessagePacks()
    ensures Representable(List(Content(NOUGHT, [], [], [])))
    ensures PackItems(Content(NOUGHT, [], [], [])) == Ok([0xCB] + NOUGHT + [0xC4, 0x00] + [0xC4, 0x00] + [0x80])
  {
    EmptyPartsPack();
    assert PackItems([]) == Ok([]);
    hide Pack, PackItems;
    OnePacksFirst(Map([]), []);
    OnePacksFirst(Bin([]), [Map([])] + []);
    OnePacksFirst(Bin([]), [Bin([])] + ([Map([])] + []));
    OnePacksFirst(Float(NOUGHT), [Bin([])] + ([Bin([])] + ([Map([])] + [])));
    assert [Float(NOUGHT)] + ([Bin([])] + ([Bin([])] + ([Map([])] + []))) == Content(NOUGHT, [], [], []);
    var time, bin, end := [0xCB] + NOUGHT, [0xC4, 0x00], [0x80];
    assert time + (bin + (bin + (end + []))) == time + bin + bin + end;
  }

  /** Seventeen bytes of payload, and a stamp of nil, on which the promise fails. */
  lemma AStampChangesTheHash(opening: seq<Byte>)
    requires |opening| == PAYLOAD_OFFSET
    ensures var lxmf := opening + EMPTY_UNDER_A_LONG_HEADER;
            && ArrayHeader(lxmf[PAYLOAD_OFFSET..]).Ok?
            && Parse(lxmf).Ok? && Parse(Stamped(lxmf, [0xC0])).Ok?
            && Parse(lxmf).value.hashedPart != Parse(Stamped(lxmf, [0xC0])).value.hashedPart
  {
    hide Parse, Stamped, PackItems, Representable, ArrayHeader;
    EmptyMessagePacks();
    assert UnpackAll([0xC0]) == Ok(Nil);
    StampUnderALongHeader(opening, NOUGHT, [], [], [], [0xC0]);
  }
}
