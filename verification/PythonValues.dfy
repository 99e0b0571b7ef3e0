/** The Python values that `tools/peer.py` packs and unpacks, with the parts of Python's
    own behaviour the codec rests on: UTF-8 validity, float widening, and which two
    dictionary keys are the same key. */
module PythonValues {
  import opened Bytes
  import opened Numbers
  import opened Results

  /** A float is the eight bytes of its binary64 form, text the bytes of its UTF-8 form,
      and a dictionary its entries in insertion order. */
  datatype Value =
    | Nil
    | Bool(b: bool)
    | Int(n: int)
    | Float(bits: seq<Byte>)
    | Bin(data: seq<Byte>)
    | Text(utf8: seq<Byte>)
    | List(items: seq<Value>)
    | Map(entries: seq<Entry>)

  datatype Entry = Entry(key: Value, value: Value)

  // -------------------------------------------------------------------- UTF-8

  predicate Continuation(c: Byte) { 0x80 <= c <= 0xBF }

  /** How long the well-formed sequence opening `s` is, by the table in section 4 of
      RFC 3629; zero when there is none. */
  function Utf8Step(s: seq<Byte>): (n: nat)
    ensures n <= |s|
  {
    if |s| >= 1 && s[0] <= 0x7F then 1
    else if |s| >= 2 && 0xC2 <= s[0] <= 0xDF && Continuation(s[1]) then 2
    else if |s| >= 3 && Utf8Lead3(s[0], s[1]) && Continuation(s[2]) then 3
    else if |s| >= 4 && Utf8Lead4(s[0], s[1]) && Continuation(s[2]) && Continuation(s[3]) then 4
    else 0
  }

  predicate Utf8Lead3(a: Byte, c: Byte) {
    if a == 0xE0 then 0xA0 <= c <= 0xBF
    else if a == 0xED then 0x80 <= c <= 0x9F
    else 0xE1 <= a <= 0xEF && Continuation(c)
  }

  predicate Utf8Lead4(a: Byte, c: Byte) {
    if a == 0xF0 then 0x90 <= c <= 0xBF
    else if a == 0xF4 then 0x80 <= c <= 0x8F
    else 0xF1 <= a <= 0xF3 && Continuation(c)
  }

  predicate ValidUtf8(s: seq<Byte>)
    decreases |s|
  {
    s == [] || (Utf8Step(s) > 0 && ValidUtf8(s[Utf8Step(s)..]))
  }

  // ------------------------------------------------------------------- floats

  const TWO_52 := 0x10_0000_0000_0000
  const TWO_63 := 0x8000_0000_0000_0000

  /** The binary64 with this sign, biased exponent and fraction. */
  function Double(negative: bool, exponent: nat, fraction: nat): seq<Byte> {
    BigEndian((if negative then TWO_63 else 0) + exponent * TWO_52 + fraction, 8)
  }

  /** A subnormal's exponent and fraction once its first set bit is the implicit one. */
  function Normalised(exponent: nat, fraction: nat): (nat, nat) {
    if fraction >= 0x80_0000 || exponent == 0 then (exponent, fraction % 0x80_0000)
    else Normalised(exponent - 1, 2 * fraction)
  }

  /** The binary64 holding the same number as a big-endian binary32. */
  function Widened(s: seq<Byte>): (d: seq<Byte>)
    requires |s| == 4
    ensures |d| == 8
  {
    var bits: nat := FromBigEndian(s);
    var negative, exponent, fraction := s[0] >= 0x80, bits / 0x80_0000 % 0x100, bits % 0x80_0000;
    if exponent == 0xFF then Double(negative, 0x7FF, fraction * 0x2000_0000)
    else if exponent > 0 then Double(negative, exponent + 896, fraction * 0x2000_0000)
    else if fraction == 0 then Double(negative, 0, 0)
    else
      var n := Normalised(897, fraction);
      Double(negative, n.0, n.1 * 0x2000_0000)
  }

  predicate IsNan(bits: seq<Byte>) {
    |bits| == 8 && FromBigEndian(bits) / TWO_52 % 0x800 == 0x7FF && FromBigEndian(bits) % TWO_52 > 0
  }

  /** The integer a binary64 is exactly, if it is one. */
  function FloatAsInt(bits: seq<Byte>): Option<int> {
    if |bits| != 8 then None else
    var all: nat := FromBigEndian(bits);
    var exponent, fraction := all / TWO_52 % 0x800, all % TWO_52;
    if exponent == 0 then (if fraction == 0 then Some(0) else None)
    else if exponent == 0x7FF then None
    else
      var m := TWO_52 + fraction;
      var sign := if bits[0] >= 0x80 then -1 else 1;
      if exponent >= 1075 then Some(sign * (m * Pow2(exponent - 1075)))
      else if m % Pow2(1075 - exponent) == 0 then Some(sign * (m / Pow2(1075 - exponent)))
      else None
  }

  // ------------------------------------------------------------- dictionaries

  /** Lists and dictionaries cannot be dictionary keys. */
  predicate Hashable(v: Value) { !v.List? && !v.Map? }

  /** The integer a key counts as: `1`, `True` and `1.0` are one key. */
  function KeyAsInt(v: Value): Option<int> {
    match v
    case Bool(b) => Some(if b then 1 else 0)
    case Int(n) => Some(n)
    case Float(bits) => FloatAsInt(bits)
    case _ => None
  }

  /** Whether a dictionary takes `a` and `b` for the same key. A NaN is no key but itself. */
  predicate SameKey(a: Value, b: Value) {
    if KeyAsInt(a).Some? || KeyAsInt(b).Some? then KeyAsInt(a) == KeyAsInt(b)
    else a == b && !(a.Float? && IsNan(a.bits))
  }

  /** `out[key] = value`: a key already there keeps its place and its spelling. */
  function Put(out: seq<Entry>, key: Value, value: Value): (r: seq<Entry>) {
    if out == [] then [Entry(key, value)]
    else if SameKey(out[0].key, key) then [Entry(out[0].key, value)] + out[1..]
    else [out[0]] + Put(out[1..], key, value)
  }

  predicate IsNewKey(out: seq<Entry>, key: Value) {
    forall k | 0 <= k < |out| :: !SameKey(out[k].key, key)
  }

  predicate DistinctKeys(out: seq<Entry>) {
    forall j, k | 0 <= j < k < |out| :: !SameKey(out[j].key, out[k].key)
  }

  /** What can exist as a Python value at all: whole floats, text that has a UTF-8 form,
      and dictionaries whose keys are hashable and different keys. */
  predicate Representable(v: Value) {
    match v
    case Float(bits) => |bits| == 8
    case Text(utf8) => ValidUtf8(utf8)
    case List(items) => forall k | 0 <= k < |items| :: Representable(items[k])
    case Map(entries) =>
      && DistinctKeys(entries)
      && forall k | 0 <= k < |entries| ::
        Hashable(entries[k].key) && Representable(entries[k].key) && Representable(entries[k].value)
    case _ => true
  }

  lemma {:induction false} PutAppends(out: seq<Entry>, key: Value, value: Value)
    requires IsNewKey(out, key)
    ensures Put(out, key, value) == out + [Entry(key, value)]
  {
    if out != [] {
      assert IsNewKey(out[1..], key) by {
        forall k | 0 <= k < |out| - 1 ensures !SameKey(out[1..][k].key, key) {
          assert out[1..][k] == out[k + 1];
        }
      }
      PutAppends(out[1..], key, value);
      assert out == [out[0]] + out[1..];
    }
  }
}
