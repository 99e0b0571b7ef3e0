/** `array_spans`: a top-level array cut into the bytes of its elements. */
module ArraySpans {
  import opened Bytes
  import opened Results
  import opened PythonValues
  import opened Msgpack
  import opened MsgpackLaws

  /** An element, and the bytes `start..end` it was read from. */
  datatype Span = Span(value: Value, start: nat, end: nat)

  /** Where the first element starts, and how many there are. */
  datatype Header = Header(length: nat, count: nat)

  function ArrayHeader(b: seq<Byte>): (r: Result<Header, UnpackError>)
    ensures r.Ok? ==> 0 < r.value.length <= |b|
  {
    if b != [] && 0x90 <= b[0] <= 0x9F then Ok(Header(1, (b[0] - 0x90) as nat))
    else if b != [] && b[0] == 0xDC && |b| >= 3 then Ok(Header(3, FromBigEndian(b[1..3])))
    else if b != [] && b[0] == 0xDD && |b| >= 5 then Ok(Header(5, FromBigEndian(b[1..5])))
    else Err(NotAnArray)
  }

  function SpansFrom(b: seq<Byte>, i: nat, n: nat, spans: seq<Span>): Result<seq<Span>, UnpackError>
    requires i <= |b|
    decreases n
  {
    if n == 0 then (if i != |b| then Err(Trailing(|b| - i)) else Ok(spans)) else
    var d :- Unpack(b, i);
    SpansFrom(b, d.end, n - 1, spans + [Span(d.value, i, d.end)])
  }

  function Spans(b: seq<Byte>): Result<seq<Span>, UnpackError> {
    var header :- ArrayHeader(b);
    SpansFrom(b, header.length, header.count, [])
  }

  method ScanSpans(b: seq<Byte>) returns (r: Result<(nat, seq<Span>), UnpackError>)
    ensures r.Err? <==> Spans(b).Err?
    ensures r.Err? ==> r.error == Spans(b).error
    ensures r.Ok? ==> r.value == (ArrayHeader(b).value.length, Spans(b).value)
  {
    var header := ArrayHeader(b);
    if header.Err? {
      return Err(header.error);
    }
    hide Unpack;
    var i: nat := header.value.length;
    var spans := [];
    for k := 0 to header.value.count
      invariant i <= |b|
      invariant Spans(b) == SpansFrom(b, i, header.value.count - k, spans)
    {
      var d := UnpackValue(b, i);
      if d.Err? {
        return Err(d.error);
      }
      spans, i := spans + [Span(d.value.value, i, d.value.end)], d.value.end;
    }
    if i != |b| {
      return Err(Trailing(|b| - i));
    }
    r := Ok((header.value.length, spans));
  }

  // ---------------------------------------------------------------- the tiling

  /** The spans are whole encodings of their values laid end to end over `from..to`. */
  predicate Tiles(b: seq<Byte>, from: nat, spans: seq<Span>, to: nat)
    decreases |spans|
  {
    if spans == [] then from == to
    else
      && spans[0].start == from
      && Unpack(b, from) == Ok(Decoded(spans[0].value, spans[0].end))
      && Tiles(b, spans[0].end, spans[1..], to)
  }

  lemma {:induction false} SpansExtend(b: seq<Byte>, i: nat, n: nat, done: seq<Span>)
    requires i <= |b| && SpansFrom(b, i, n, done).Ok?
    ensures done <= SpansFrom(b, i, n, done).value && |SpansFrom(b, i, n, done).value| == |done| + n
    decreases n
  {
    hide Unpack;
    if n > 0 {
      var d := Unpack(b, i).value;
      SpansExtend(b, d.end, n - 1, done + [Span(d.value, i, d.end)]);
    }
  }

  lemma {:induction false} SpansFromIffTiles(b: seq<Byte>, i: nat, n: nat, done: seq<Span>, rest: seq<Span>)
    requires i <= |b|
    ensures SpansFrom(b, i, n, done) == Ok(done + rest) <==> |rest| == n && Tiles(b, i, rest, |b|)
    decreases n
  {
    hide Unpack;
    if n == 0 {
      assert done == done + rest <==> rest == [];
    } else if Unpack(b, i).Ok? {
      var d := Unpack(b, i).value;
      var s := Span(d.value, i, d.end);
      if rest != [] && rest[0] == s {
        assert done + [s] + rest[1..] == done + rest;
        SpansFromIffTiles(b, d.end, n - 1, done + [s], rest[1..]);
      } else if SpansFrom(b, i, n, done).Ok? {
        SpansExtend(b, d.end, n - 1, done + [s]);
        assert SpansFrom(b, i, n, done).value[|done|] == s;
      }
    }
  }

  /** `array_spans` succeeds with exactly the spans that tile the payload, from the end of
      the header to its last byte, with no gap and no overlap. */
  lemma {:induction false} SpansAreTheTiling(b: seq<Byte>, spans: seq<Span>)
    ensures Spans(b) == Ok(spans) <==>
            ArrayHeader(b).Ok? && |spans| == ArrayHeader(b).value.count
            && Tiles(b, ArrayHeader(b).value.length, spans, |b|)
  {
    if ArrayHeader(b).Ok? {
      var h := ArrayHeader(b).value;
      SpansFromIffTiles(b, h.length, h.count, [], spans);
      assert [] + spans == spans;
    }
  }

  lemma {:induction false} TilesInside(b: seq<Byte>, from: nat, spans: seq<Span>, to: nat)
    requires Tiles(b, from, spans, to) && from <= |b|
    ensures from <= to <= |b|
    decreases |spans|
  {
    hide Unpack;
    if spans != [] {
      TilesInside(b, spans[0].end, spans[1..], to);
    }
  }

  /** Where the first `k` of some spans end. */
  function EndOf(from: nat, spans: seq<Span>, k: nat): nat
    requires k <= |spans|
  {
    if k == 0 then from else spans[k - 1].end
  }

  lemma {:induction false} TilesSplit(b: seq<Byte>, from: nat, spans: seq<Span>, k: nat, to: nat)
    requires Tiles(b, from, spans, to) && k <= |spans| && from <= |b|
    ensures Tiles(b, from, spans[..k], EndOf(from, spans, k)) && Tiles(b, EndOf(from, spans, k), spans[k..], to)
    ensures from <= EndOf(from, spans, k) <= to <= |b| && (k > 0 ==> from < EndOf(from, spans, k))
    ensures k < |spans| ==> spans[k].start == EndOf(from, spans, k)
    decreases k
  {
    hide Unpack;
    TilesInside(b, from, spans, to);
    if k > 0 {
      TilesSplit(b, spans[0].end, spans[1..], k - 1, to);
      assert spans[..k][1..] == spans[1..][..k - 1] && spans[1..][k - 1..] == spans[k..];
    }
  }

  /** Elements cut out of one array and set into another are still those elements. */
  lemma {:induction false} TilesRelocate(b: seq<Byte>, from: nat, spans: seq<Span>, to: nat, c: seq<Byte>, j: nat)
      returns (moved: seq<Span>)
    requires Tiles(b, from, spans, to) && from <= to <= |b| && At(c, j, b[from..to])
    ensures Tiles(c, j, moved, to - from + j) && Values(moved) == Values(spans)
    decreases |spans|
  {
    hide Unpack, At;
    if spans == [] {
      moved := [];
    } else {
      var s := spans[0];
      TilesInside(b, s.end, spans[1..], to);
      AtSlice(b, from, s.end, to, c, j);
      Relocates(b, from, c, j);
      var rest := TilesRelocate(b, s.end, spans[1..], to, c, s.end - from + j);
      moved := [Span(s.value, j, s.end - from + j)] + rest;
      assert moved[1..] == rest;
      ValuesCons(s, spans[1..]);
      ValuesCons(moved[0], rest);
      assert spans == [s] + spans[1..];
    }
  }

  lemma ValuesCons(s: Span, rest: seq<Span>)
    ensures Values([s] + rest) == [s.value] + Values(rest)
  {
  }

  // ------------------------------------------------------ the same as unpacking

  function Values(spans: seq<Span>): (vs: seq<Value>)
    ensures |vs| == |spans|
  {
    seq(|spans|, k requires 0 <= k < |spans| => spans[k].value)
  }

  lemma {:induction false} SpansMatchItems(b: seq<Byte>, i: nat, n: nat, done: seq<Span>)
    requires i <= |b|
    ensures SpansFrom(b, i, n, done).Ok? <==>
            UnpackItems(b, i, n, Values(done)).Ok? && UnpackItems(b, i, n, Values(done)).value.end == |b|
    ensures SpansFrom(b, i, n, done).Ok? ==>
            UnpackItems(b, i, n, Values(done)).value.value == List(Values(SpansFrom(b, i, n, done).value))
    ensures SpansFrom(b, i, n, done).Err? ==>
            var r := UnpackItems(b, i, n, Values(done));
            SpansFrom(b, i, n, done).error == if r.Err? then r.error else Trailing(|b| - r.value.end)
    decreases n
  {
    hide Unpack;
    if n > 0 && Unpack(b, i).Ok? {
      var d := Unpack(b, i).value;
      assert Values(done + [Span(d.value, i, d.end)]) == Values(done) + [d.value];
      SpansMatchItems(b, d.end, n - 1, done + [Span(d.value, i, d.end)]);
    }
  }

  lemma HeaderMatchesHead(b: seq<Byte>)
    ensures ArrayHeader(b).Ok? <==> UnpackHead(b, 0).Ok? && UnpackHead(b, 0).value.Items?
    ensures ArrayHeader(b).Ok? ==>
            UnpackHead(b, 0).value == Items(ArrayHeader(b).value.count, ArrayHeader(b).value.length)
    ensures ArrayHeader(b).Err? ==> ArrayHeader(b) == Err(NotAnArray)
  {
    hide FromBigEndian;
    if b != [] {
      var t := b[0];
      assert KindOf(t).Elements? || KindOf(t).Counted? || !(0x90 <= t <= 0x9F || 0xDC <= t <= 0xDD);
      assert Take(b, 0, 2).Ok? ==> Take(b, 0, 2).value == b[1..3];
      assert Take(b, 0, 4).Ok? ==> Take(b, 0, 4).value == b[1..5];
    }
  }

  /** Cutting an array into spans is unpacking it: they succeed on the same payloads, with
      the same elements, and fail on the same arrays for the same reason; what does not open
      like an array is not one. */
  lemma SpansAgreeWithUnpacking(b: seq<Byte>)
    ensures Spans(b).Ok? <==> UnpackAll(b).Ok? && UnpackAll(b).value.List?
    ensures Spans(b).Ok? ==> UnpackAll(b) == Ok(List(Values(Spans(b).value)))
    ensures var head := UnpackHead(b, 0);
            Spans(b).Err? ==>
            Spans(b).error
            == if head.Ok? && head.value.Items? && UnpackAll(b).Err? then UnpackAll(b).error else NotAnArray
  {
    HeaderMatchesHead(b);
    hide UnpackHead, ArrayHeader;
    if ArrayHeader(b).Ok? {
      var h := ArrayHeader(b).value;
      assert Values([]) == [];
      SpansMatchItems(b, h.length, h.count, []);
    }
    if UnpackAll(b).Ok? && UnpackAll(b).value.List? {
      MapsAreNotLists(b);
    }
  }

  lemma MapsAreNotLists(b: seq<Byte>)
    requires UnpackAll(b).Ok? && UnpackAll(b).value.List?
    ensures UnpackHead(b, 0).value.Items?
  {
    if UnpackHead(b, 0).value.Entries? {
      EntriesAreAMap(b, UnpackHead(b, 0).value.at, UnpackHead(b, 0).value.count, []);
    }
  }

  lemma {:induction false} EntriesAreAMap(b: seq<Byte>, i: nat, n: nat, out: seq<Entry>)
    requires i <= |b| && UnpackEntries(b, i, n, out).Ok?
    ensures UnpackEntries(b, i, n, out).value.value.Map?
    decreases n
  {
    hide Unpack;
    if n > 0 {
      var k := Unpack(b, i).value;
      var v := Unpack(b, k.end).value;
      EntriesAreAMap(b, v.end, n - 1, Put(out, k.value, v.value));
    }
  }
}
