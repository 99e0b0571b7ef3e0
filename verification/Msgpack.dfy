/** The MessagePack subset of `tools/peer.py`: `packb`, `_unpack` and `unpackb`.

    Specification functions first, then the methods with the source's own loops, each
    proved equal to its function. What the two directions promise each other is in
    MsgpackLaws. */
module Msgpack {
  import opened Bytes
  import opened Results
  import opened PythonValues

  // ------------------------------------------------------------------ packing

  datatype PackError = DoesNotFit(n: int) | CannotPack | TooManyElements

  /** The narrowest of 1, 2, 4 and 8 bytes that holds `n`; zero when none does. */
  function UnsignedWidth(n: nat): (w: nat)
    ensures w == 0 || n < Pow256(w)
  {
    if n < Pow256(1) then 1
    else if n < Pow256(2) then 2
    else if n < Pow256(4) then 4
    else if n < Pow256(8) then 8
    else 0
  }

  /** The narrowest two's complement field that holds a negative `n`; zero when none does. */
  function SignedWidth(n: int): (w: nat)
    requires n < 0
    ensures w == 0 || n + Pow256(w) >= 0
  {
    if n >= -(Pow256(1) / 2) then 1
    else if n >= -(Pow256(2) / 2) then 2
    else if n >= -(Pow256(4) / 2) then 4
    else if n >= -(Pow256(8) / 2) then 8
    else 0
  }

  /** The type bytes of one family, for fields of 1, 2, 4 and 8 bytes. */
  function Tag(first: Byte, width: nat): Byte
    requires first <= 0xFC
  {
    first + (if width == 1 then 0 else if width == 2 then 1 else if width == 4 then 2 else 3)
  }

  function PackInt(n: int): Result<seq<Byte>, PackError> {
    if 0 <= n <= 0x7F then Ok([n as Byte])
    else if -32 <= n < 0 then Ok([(n + 0x100) as Byte])
    else if n >= 0 then
      var w := UnsignedWidth(n);
      if w == 0 then Err(DoesNotFit(n)) else Ok([Tag(0xCC, w)] + BigEndian(n, w))
    else
      var w := SignedWidth(n);
      if w == 0 then Err(DoesNotFit(n)) else Ok([Tag(0xD0, w)] + BigEndian(n + Pow256(w), w))
  }

  /** A body under the narrowest length field of 1, 2 or 4 bytes, `first` being the type
      byte for one of 1. */
  function PackSized(first: Byte, body: seq<Byte>): Result<seq<Byte>, PackError>
    requires first <= 0xFC
  {
    var w := UnsignedWidth(|body|);
    if w == 1 || w == 2 || w == 4 then Ok([Tag(first, w)] + BigEndian(|body|, w) + body)
    else Err(CannotPack)
  }

  /** `_sized`: the header of a list or a map of `n` elements. */
  function Sized(n: nat, isMap: bool): Result<seq<Byte>, PackError> {
    if n < 16 then Ok([(if isMap then 0x80 else 0x90) + n as Byte])
    else if n < Pow256(2) then Ok([if isMap then 0xDE else 0xDC] + BigEndian(n, 2))
    else if n < Pow256(4) then Ok([if isMap then 0xDF else 0xDD] + BigEndian(n, 4))
    else Err(TooManyElements)
  }

  /** `packb`. */
  function Pack(v: Value): Result<seq<Byte>, PackError>
    decreases v, 0
  {
    match v
    case Nil => Ok([0xC0])
    case Bool(b) => Ok([if b then 0xC3 else 0xC2])
    case Int(n) => PackInt(n)
    case Float(bits) => Ok([0xCB] + bits)
    case Bin(data) => PackSized(0xC4, data)
    case Text(utf8) => if |utf8| < 32 then Ok([0xA0 + |utf8| as Byte] + utf8) else PackSized(0xD9, utf8)
    case List(items) =>
      var header :- Sized(|items|, false);
      var body :- PackItems(items);
      Ok(header + body)
    case Map(entries) =>
      var header :- Sized(|entries|, true);
      var body :- PackEntries(entries);
      Ok(header + body)
  }

  function PackItems(items: seq<Value>): Result<seq<Byte>, PackError>
    decreases items, 0
  {
    if items == [] then Ok([]) else
    var first :- Pack(items[0]);
    var rest :- PackItems(items[1..]);
    Ok(first + rest)
  }

  function PackEntries(entries: seq<Entry>): Result<seq<Byte>, PackError>
    decreases entries, 0
  {
    if entries == [] then Ok([]) else
    var first :- PackEntry(entries[0]);
    var rest :- PackEntries(entries[1..]);
    Ok(first + rest)
  }

  function PackEntry(entry: Entry): Result<seq<Byte>, PackError>
    decreases entry, 0
  {
    var key :- Pack(entry.key);
    var value :- Pack(entry.value);
    Ok(key + value)
  }

  // ---------------------------------------------------------------- unpacking

  datatype UnpackError =
    | Truncated(at: nat)
    | BadUtf8
    | UnhashableKey
    | UnknownType(t: Byte, at: nat)
    | NotAnArray
    | Trailing(count: nat)

  /** A value, and the index of the first byte after it. */
  datatype Decoded = Decoded(value: Value, end: nat)

  /** What one type byte and its length field announce. */
  datatype Head =
    | Leaf(value: Value, end: nat)
    | Items(count: nat, at: nat)
    | Entries(count: nat, at: nat)

  /** What a type byte says follows it: the value itself, a body or a count whose length
      is in the type byte or in a field of `width` bytes, or a number. */
  datatype Kind =
    | Immediate(value: Value)
    | Body(n: nat)
    | SizedBody(width: nat, isText: bool)
    | Single
    | Double
    | Unsigned(width: nat)
    | Signed(width: nat)
    | Elements(n: nat, isMap: bool)
    | Counted(width: nat, isMap: bool)
    | Unknown

  function KindOf(t: Byte): Kind {
    if t <= 0x7F then Immediate(Int(t as int))
    else if t >= 0xE0 then Immediate(Int(t as int - 0x100))
    else if t <= 0x8F then Elements((t - 0x80) as nat, true)
    else if t <= 0x9F then Elements((t - 0x90) as nat, false)
    else if t <= 0xBF then Body((t - 0xA0) as nat)
    else match t
      case 0xC0 => Immediate(Nil)
      case 0xC2 => Immediate(Bool(false))
      case 0xC3 => Immediate(Bool(true))
      case 0xC4 => SizedBody(1, false)
      case 0xC5 => SizedBody(2, false)
      case 0xC6 => SizedBody(4, false)
      case 0xCA => Single
      case 0xCB => Double
      case 0xCC => Unsigned(1)
      case 0xCD => Unsigned(2)
      case 0xCE => Unsigned(4)
      case 0xCF => Unsigned(8)
      case 0xD0 => Signed(1)
      case 0xD1 => Signed(2)
      case 0xD2 => Signed(4)
      case 0xD3 => Signed(8)
      case 0xD9 => SizedBody(1, true)
      case 0xDA => SizedBody(2, true)
      case 0xDB => SizedBody(4, true)
      case 0xDC => Counted(2, false)
      case 0xDD => Counted(4, false)
      case 0xDE => Counted(2, true)
      case 0xDF => Counted(4, true)
      case _ => Unknown
  }

  /** The `n` bytes after the type byte at `i`. */
  function Take(b: seq<Byte>, i: nat, n: nat): (r: Result<seq<Byte>, UnpackError>)
    ensures r.Ok? ==> |r.value| == n
  {
    if i + 1 + n > |b| then Err(Truncated(i)) else Ok(b[i + 1..i + 1 + n])
  }

  function TakeBody(b: seq<Byte>, i: nat, n: nat, isText: bool): Result<Head, UnpackError> {
    var s :- Take(b, i, n);
    if !isText then Ok(Leaf(Bin(s), i + 1 + n))
    else if ValidUtf8(s) then Ok(Leaf(Text(s), i + 1 + n))
    else Err(BadUtf8)
  }

  function TwosComplement(n: nat, width: nat): int {
    if n < Pow256(width) / 2 then n else n - Pow256(width)
  }

  function Container(n: nat, at: nat, isMap: bool): Head {
    if isMap then Entries(n, at) else Items(n, at)
  }

  /** How many bytes a kind reads straight after its type byte. */
  function Need(kind: Kind): nat {
    match kind
    case Body(n) => n
    case SizedBody(width, _) => width
    case Single => 4
    case Double => 8
    case Unsigned(width) => width
    case Signed(width) => width
    case Counted(width, _) => width
    case _ => 0
  }

  /** `_unpack` at `i`, up to the calls that read elements. */
  function UnpackHead(b: seq<Byte>, i: nat): (r: Result<Head, UnpackError>)
    ensures r.Ok? ==> i < HeadEnd(r.value) <= |b|
  {
    if i >= |b| then Err(Truncated(i)) else
    var kind := KindOf(b[i]);
    var s :- Take(b, i, Need(kind));
    if kind.SizedBody? then TakeBody(b, i + kind.width, FromBigEndian(s), kind.isText)
    else HeadFrom(kind, s, b[i], i)
  }

  /** The head a type byte at `i` makes with the bytes `s` after it. */
  function HeadFrom(kind: Kind, s: seq<Byte>, t: Byte, i: nat): (r: Result<Head, UnpackError>)
    requires |s| == Need(kind) && !kind.SizedBody?
    ensures r.Ok? ==> HeadEnd(r.value) == i + 1 + |s|
  {
    var end := i + 1 + |s|;
    match kind
    case Immediate(v) => Ok(Leaf(v, end))
    case Body(_) => if ValidUtf8(s) then Ok(Leaf(Text(s), end)) else Err(BadUtf8)
    case Single => Ok(Leaf(Float(Widened(s)), end))
    case Double => Ok(Leaf(Float(s), end))
    case Unsigned(_) => Ok(Leaf(Int(FromBigEndian(s)), end))
    case Signed(width) => Ok(Leaf(Int(TwosComplement(FromBigEndian(s), width)), end))
    case Elements(n, isMap) => Ok(Container(n, end, isMap))
    case Counted(_, isMap) => Ok(Container(FromBigEndian(s), end, isMap))
    case Unknown => Err(UnknownType(t, i))
  }

  /** The index of the first byte the head does not cover. */
  function HeadEnd(h: Head): nat { if h.Leaf? then h.end else h.at }

  function Remaining(b: seq<Byte>, i: nat): nat { if i <= |b| then |b| - i else 0 }

  /** `_unpack`. A successful step ends strictly after its start and inside the buffer,
      which is what makes the recursion end on any input whatever. */
  function Unpack(b: seq<Byte>, i: nat): (r: Result<Decoded, UnpackError>)
    ensures r.Ok? ==> i < r.value.end <= |b|
    decreases Remaining(b, i), 0
  {
    var head :- UnpackHead(b, i);
    match head
    case Leaf(v, end) => Ok(Decoded(v, end))
    case Items(n, at) => UnpackItems(b, at, n, [])
    case Entries(n, at) => UnpackEntries(b, at, n, [])
  }

  /** `_unpack_array`, from an `out` already collected. */
  function UnpackItems(b: seq<Byte>, i: nat, n: nat, out: seq<Value>): (r: Result<Decoded, UnpackError>)
    requires i <= |b|
    ensures r.Ok? ==> i + n <= r.value.end <= |b|
    decreases Remaining(b, i), 1
  {
    if n == 0 then Ok(Decoded(List(out), i)) else
    var d :- Unpack(b, i);
    UnpackItems(b, d.end, n - 1, out + [d.value])
  }

  /** `_unpack_map`, from an `out` already collected. */
  function UnpackEntries(b: seq<Byte>, i: nat, n: nat, out: seq<Entry>): (r: Result<Decoded, UnpackError>)
    requires i <= |b|
    ensures r.Ok? ==> i + n <= r.value.end <= |b|
    decreases Remaining(b, i), 1
  {
    if n == 0 then Ok(Decoded(Map(out), i)) else
    var k :- Unpack(b, i);
    var v :- Unpack(b, k.end);
    if !Hashable(k.value) then Err(UnhashableKey) else
    UnpackEntries(b, v.end, n - 1, Put(out, k.value, v.value))
  }

  /** `unpackb`. */
  function UnpackAll(b: seq<Byte>): Result<Value, UnpackError> {
    var d :- Unpack(b, 0);
    if d.end != |b| then Err(Trailing(|b| - d.end)) else Ok(d.value)
  }

  // ------------------------------------------------- the loops of the source

  method UnpackValue(b: seq<Byte>, i: nat) returns (r: Result<Decoded, UnpackError>)
    ensures r == Unpack(b, i)
    decreases Remaining(b, i), 0
  {
    var head := UnpackHead(b, i);
    match head {
      case Err(e) => r := Err(e);
      case Ok(Leaf(v, end)) => r := Ok(Decoded(v, end));
      case Ok(Items(n, at)) => r := UnpackArray(b, at, n);
      case Ok(Entries(n, at)) => r := UnpackMap(b, at, n);
    }
  }

  method UnpackArray(b: seq<Byte>, start: nat, n: nat) returns (r: Result<Decoded, UnpackError>)
    requires start <= |b|
    ensures r == UnpackItems(b, start, n, [])
    decreases Remaining(b, start), 1
  {
    hide UnpackHead, Put, Hashable;
    var i, out := start, [];
    for k := 0 to n
      invariant start <= i <= |b|
      invariant UnpackItems(b, start, n, []) == UnpackItems(b, i, n - k, out)
    {
      var d := UnpackValue(b, i);
      if d.Err? {
        return Err(d.error);
      }
      i, out := d.value.end, out + [d.value.value];
    }
    r := Ok(Decoded(List(out), i));
  }

  method UnpackMap(b: seq<Byte>, start: nat, n: nat) returns (r: Result<Decoded, UnpackError>)
    requires start <= |b|
    ensures r == UnpackEntries(b, start, n, [])
    decreases Remaining(b, start), 1
  {
    hide UnpackHead, Put, Hashable;
    var i, out := start, [];
    for k := 0 to n
      invariant start <= i <= |b|
      invariant UnpackEntries(b, start, n, []) == UnpackEntries(b, i, n - k, out)
    {
      var key := UnpackValue(b, i);
      if key.Err? {
        return Err(key.error);
      }
      var value := UnpackValue(b, key.value.end);
      if value.Err? {
        return Err(value.error);
      }
      if !Hashable(key.value.value) {
        return Err(UnhashableKey);
      }
      i, out := value.value.end, Put(out, key.value.value, value.value.value);
    }
    r := Ok(Decoded(Map(out), i));
  }
}
