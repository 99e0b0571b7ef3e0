/** Bytes, and the fixed-width integers that Python's `struct`, `int.from_bytes` and
    `int.to_bytes` put on the wire. */
module Bytes {

  newtype Byte = x: int | 0 <= x < 0x100

  /** How many values `width` bytes can hold. */
  function Pow256(width: nat): (p: nat)
    ensures p >= 1
  {
    if width == 0 then 1 else 0x100 * Pow256(width - 1)
  }

  /** The big-endian bytes of `n`: what `n.to_bytes(width, "big")` writes. */
  function BigEndian(n: nat, width: nat): (s: seq<Byte>)
    ensures |s| == width
  {
    if width == 0 then [] else BigEndian(n / 0x100, width - 1) + [(n % 0x100) as Byte]
  }

  /** The number big-endian bytes spell. */
  function FromBigEndian(s: seq<Byte>): (n: nat)
    ensures n < Pow256(|s|)
  {
    if s == [] then 0 else FromBigEndian(s[..|s| - 1]) * 0x100 + s[|s| - 1] as nat
  }

  lemma {:induction false} BigEndianInverts(n: nat, width: nat)
    requires n < Pow256(width)
    ensures FromBigEndian(BigEndian(n, width)) == n
  {
    if width > 0 {
      BigEndianInverts(n / 0x100, width - 1);
      var s := BigEndian(n, width);
      assert s[..|s| - 1] == BigEndian(n / 0x100, width - 1);
    }
  }

  /** The little-endian bytes of `n`: what `struct.pack` writes under `<`. */
  function LittleEndian(n: nat, width: nat): (s: seq<Byte>)
    ensures |s| == width
  {
    if width == 0 then [] else [(n % 0x100) as Byte] + LittleEndian(n / 0x100, width - 1)
  }

  function FromLittleEndian(s: seq<Byte>): (n: nat)
    ensures n < Pow256(|s|)
  {
    if s == [] then 0 else s[0] as nat + 0x100 * FromLittleEndian(s[1..])
  }

  lemma {:induction false} LittleEndianInverts(n: nat, width: nat)
    requires n < Pow256(width)
    ensures FromLittleEndian(LittleEndian(n, width)) == n
  {
    if width > 0 {
      LittleEndianInverts(n / 0x100, width - 1);
      assert LittleEndian(n, width)[1..] == LittleEndian(n / 0x100, width - 1);
    }
  }

  /** `p` stands in `b` at position `i`. */
  predicate At(b: seq<Byte>, i: nat, p: seq<Byte>) {
    i + |p| <= |b| && b[i..i + |p|] == p
  }

  lemma AtBounds(b: seq<Byte>, i: nat, p: seq<Byte>)
    requires At(b, i, p)
    ensures i + |p| <= |b|
  {
  }

  lemma AtConcat(b: seq<Byte>, i: nat, p: seq<Byte>, q: seq<Byte>)
    requires At(b, i, p + q)
    ensures At(b, i, p) && At(b, i + |p|, q)
  {
    assert b[i..i + |p|] == (p + q)[..|p|];
    assert b[i + |p|..i + |p| + |q|] == (p + q)[|p|..];
  }

  lemma AtInside(b: seq<Byte>, i: nat, p: seq<Byte>, k: nat)
    requires At(b, i, p) && k < |p|
    ensures b[i + k] == p[k]
  {
    assert b[i..i + |p|][k] == p[k];
  }
}
