/** Widening a binary32 to a binary64 changes no number: what `struct.unpack(">f", …)` gives a
    Python float. The formats are IEEE 754's, section 3.4. */
module FloatLaws {
  import opened Bytes
  import opened Numbers
  import opened Results
  import opened PythonValues

  const TWO_23 := 0x80_0000
  const TWO_29 := 0x2000_0000

  predicate Negative(bits: seq<Byte>)
    requires bits != []
  {
    bits[0] >= 0x80
  }

  function Exponent32(s: seq<Byte>): nat { FromBigEndian(s) / TWO_23 % 0x100 }

  function Fraction32(s: seq<Byte>): nat { FromBigEndian(s) % TWO_23 }

  function Exponent64(d: seq<Byte>): nat { FromBigEndian(d) / TWO_52 % 0x800 }

  function Fraction64(d: seq<Byte>): nat { FromBigEndian(d) % TWO_52 }

  /** A finite magnitude, counted in the least number of its format that is not zero: 2^-149
      for a binary32, 2^-1074 for a binary64. */
  function Magnitude(exponent: nat, fraction: nat, one: nat): nat {
    if exponent == 0 then fraction else (one + fraction) * Pow2(exponent - 1)
  }

  lemma {:induction false} PowersAdd(a: nat, b: nat)
    ensures Pow2(a + b) == Pow2(a) * Pow2(b)
  {
    if b > 0 {
      PowersAdd(a, b - 1);
    }
  }

  lemma SmallPowers()
    ensures Pow2(1) == 2 && Pow2(8) == 0x100 && Pow2(23) == TWO_23 && Pow2(28) == 0x1000_0000 && Pow2(29) == TWO_29
  {
    assert Pow2(8) == 0x100 && Pow2(16) == 0x1_0000 by { PowersAdd(8, 8); }
    PowersAdd(16, 7);
    PowersAdd(23, 5);
    assert Pow2(7) == 0x80 && Pow2(5) == 0x20;
  }

  lemma OneMoreByte(s: seq<Byte>, last: Byte)
    ensures FromBigEndian(s + [last]) == FromBigEndian(s) * 0x100 + last as nat
  {
    assert (s + [last])[..|s|] == s;
  }

  lemma Shift(top: nat, width: nat, low: nat)
    ensures (top * Pow256(width) + low) * 0x100 == top * Pow256(width + 1) + low * 0x100
  {
    assert Pow256(width + 1) == 0x100 * Pow256(width);
    assert top * (0x100 * Pow256(width)) == top * Pow256(width) * 0x100;
  }

  lemma {:induction false} TopByte(s: seq<Byte>)
    requires s != []
    ensures FromBigEndian(s) == s[0] as nat * Pow256(|s| - 1) + FromBigEndian(s[1..])
  {
    if |s| == 1 {
      assert s[..0] == [] && s[1..] == [] && Pow256(0) == 1;
    } else {
      hide FromBigEndian, Pow256;
      var most, last := s[..|s| - 1], s[|s| - 1];
      TopByte(most);
      assert s == most + [last] && s[1..] == most[1..] + [last];
      OneMoreByte(most, last);
      OneMoreByte(most[1..], last);
      Shift(s[0] as nat, |most| - 1, FromBigEndian(most[1..]));
    }
  }

  lemma Width8()
    ensures Pow256(7) == 0x100_0000_0000_0000 && Pow256(8) == 2 * TWO_63
  {
    assert Pow256(4) == 0x1_0000_0000;
  }

  /** The three parts of a binary64 are those it was made of. */
  lemma DoubleParts(negative: bool, exponent: nat, fraction: nat)
    requires exponent < 0x800 && fraction < TWO_52
    ensures var d := Double(negative, exponent, fraction);
            && |d| == 8 && (Negative(d) <==> negative)
            && Exponent64(d) == exponent && Fraction64(d) == fraction
  {
    hide FromBigEndian, BigEndian;
    var n := (if negative then TWO_63 else 0) + exponent * TWO_52 + fraction;
    var d := Double(negative, exponent, fraction);
    Width8();
    BigEndianInverts(n, 8);
    TopByte(d);
    hide Pow256;
    assert n == ((if negative then 0x800 else 0) + exponent) * TWO_52 + fraction;
    Split(n, (if negative then 0x800 else 0) + exponent, fraction);
  }

  lemma Split(n: nat, high: nat, low: nat)
    requires n == high * TWO_52 + low && low < TWO_52 && high < 0x1000
    ensures n / TWO_52 == high && n % TWO_52 == low
    ensures n / TWO_52 % 0x800 == if high >= 0x800 then high - 0x800 else high
  {
  }

  lemma Doubles(n: nat)
    ensures Pow2(0) == 1 && (n > 0 ==> Pow2(n) == 2 * Pow2(n - 1))
  {
  }

  lemma DoublingMoves(fraction: nat, p: nat, half: nat)
    requires p == 2 * half
    ensures fraction * p == (2 * fraction) * half
  {
  }

  lemma NormalisedOnce(exponent: nat, fraction: nat)
    requires fraction < 2 * TWO_23
    ensures fraction >= TWO_23 ==> Normalised(exponent, fraction) == (exponent, fraction - TWO_23)
    ensures fraction < TWO_23 && exponent > 0 ==>
            Normalised(exponent, fraction) == Normalised(exponent - 1, 2 * fraction)
  {
  }

  /** Doubling until the first set bit is the implicit one changes no number. */
  lemma {:induction false} NormalisedIs(exponent: nat, fraction: nat, k: nat)
    requires 0 < fraction < 2 * TWO_23 && k <= exponent && fraction * Pow2(k) >= TWO_23
    ensures var (e, g) := Normalised(exponent, fraction);
            && exponent - k <= e <= exponent && g < TWO_23
            && (TWO_23 + g) * Pow2(e) == fraction * Pow2(exponent)
    decreases exponent
  {
    hide Pow2, Normalised;
    NormalisedOnce(exponent, fraction);
    if fraction < TWO_23 {
      Doubles(k);
      Doubles(exponent);
      DoublingMoves(fraction, Pow2(exponent), Pow2(exponent - 1));
      DoublingMoves(fraction, Pow2(k), Pow2(k - 1));
      NormalisedIs(exponent - 1, 2 * fraction, k - 1);
    }
  }

  /** Widening a normal number. */
  lemma NormalWidens(exponent: nat, fraction: nat)
    requires 0 < exponent < 0xFF && fraction < TWO_23
    ensures Magnitude(exponent + 896, fraction * TWO_29, TWO_52) == Magnitude(exponent, fraction, TWO_23) * Pow2(925)
  {
    hide Pow2;
    SmallPowers();
    PowersAdd(29, exponent + 895);
    PowersAdd(exponent - 1, 925);
    Regroup(TWO_23 + fraction, Pow2(exponent + 895), Pow2(exponent - 1), Pow2(925));
  }

  lemma Regroup(m: nat, a: nat, b: nat, c: nat)
    requires TWO_29 * a == b * c
    ensures m * TWO_29 * a == m * b * c
  {
    assert m * TWO_29 * a == m * (TWO_29 * a) && m * b * c == m * (b * c);
  }

  /** Widening one that was too small to be normal. */
  lemma SubnormalWidens(fraction: nat)
    requires 0 < fraction < TWO_23
    ensures var (e, g) := Normalised(897, fraction);
            && 0 < e < 0x7FF && g < TWO_23
            && Magnitude(e, g * TWO_29, TWO_52) == fraction * Pow2(925)
  {
    hide Pow2, Normalised;
    SmallPowers();
    assert fraction * Pow2(23) >= TWO_23;
    NormalisedIs(897, fraction, 23);
    var (e, g) := Normalised(897, fraction);
    PowersAdd(1, e - 1);
    PowersAdd(28, 897);
    Halved(TWO_23 + g, Pow2(e - 1), fraction, Pow2(897));
  }

  lemma Halved(m: nat, half: nat, fraction: nat, p: nat)
    requires m * (2 * half) == fraction * p
    ensures m * TWO_29 * half == fraction * (0x1000_0000 * p)
  {
    assert m * TWO_29 * half == 0x1000_0000 * (m * (2 * half));
    assert fraction * (0x1000_0000 * p) == 0x1000_0000 * (fraction * p);
  }

  /** The widened float is the number the narrow one was: the same sign; of a finite one the
      same magnitude, 2^-149 being 2^925 times 2^-1074; of an infinity an infinity; and of
      what is no number, none. */
  lemma WideningIsExact(s: seq<Byte>)
    requires |s| == 4
    ensures var d := Widened(s);
            && |d| == 8 && (Negative(d) <==> Negative(s))
            && (Exponent64(d) == 0x7FF <==> Exponent32(s) == 0xFF)
            && (Exponent32(s) == 0xFF ==> (Fraction64(d) == 0 <==> Fraction32(s) == 0))
            && (Exponent32(s) < 0xFF ==>
                  Magnitude(Exponent64(d), Fraction64(d), TWO_52)
                  == Magnitude(Exponent32(s), Fraction32(s), TWO_23) * Pow2(925))
  {
    hide Pow2, Normalised, Double, FromBigEndian, Magnitude, Exponent64, Fraction64;
    var exponent, fraction := Exponent32(s), Fraction32(s);
    if exponent == 0xFF {
      DoubleParts(Negative(s), 0x7FF, fraction * TWO_29);
    } else if exponent > 0 {
      DoubleParts(Negative(s), exponent + 896, fraction * TWO_29);
      NormalWidens(exponent, fraction);
    } else if fraction == 0 {
      DoubleParts(Negative(s), 0, 0);
      NoughtIsNought();
    } else {
      SubnormalWidens(fraction);
      var (e, g) := Normalised(897, fraction);
      DoubleParts(Negative(s), e, g * TWO_29);
      LeastExponent(fraction);
    }
  }

  lemma NoughtIsNought()
    ensures Magnitude(0, 0, TWO_23) == Magnitude(0, 0, TWO_52) == 0
  {
  }

  lemma LeastExponent(fraction: nat)
    ensures Magnitude(0, fraction, TWO_23) == fraction
  {
  }

  // ------------------------------------------------------------------- which key is which

  function Size(n: int): nat { if n >= 0 then n else -n }

  /** The double is the integer: of its sign, and as many times 2^-1074 as the integer is. */
  predicate IsInteger(bits: seq<Byte>, n: int) {
    && |bits| == 8 && Exponent64(bits) != 0x7FF
    && Magnitude(Exponent64(bits), Fraction64(bits), TWO_52) == Size(n) * Pow2(1074)
    && (n != 0 ==> (n < 0 <==> Negative(bits)))
  }

  lemma WholeIff(m: nat, k: nat, n: nat)
    ensures m == n * Pow2(k) <==> m % Pow2(k) == 0 && m / Pow2(k) == n
  {
    hide Pow2;
    var p := Pow2(k);
    assert m == m / p * p + m % p;
    if m == n * p {
      Divides(m, n, p);
    }
  }

  lemma Divides(m: nat, n: nat, p: nat)
    requires p > 0 && m == n * p
    ensures m / p == n && m % p == 0
  {
    var d := m / p - n;
    assert m / p * p + m % p == m == n * p;
    assert d * p == m / p * p - n * p;
    NoMultipleBetween(d, p);
  }

  lemma NoMultipleBetween(d: int, p: nat)
    requires p > 0 && d * p <= 0 < d * p + p
    ensures d == 0
  {
    assert d >= 1 ==> d * p >= p;
    assert d <= -1 ==> d * p + p <= 0;
  }

  lemma CancelsPower(a: nat, b: nat, k: nat)
    ensures a * Pow2(k) == b * Pow2(k) <==> a == b
  {
    hide Pow2;
  }

  lemma Wide()
    ensures Pow2(52) == TWO_52 && Pow2(1074) > TWO_52
  {
    hide Pow2;
    SmallPowers();
    PowersAdd(23, 29);
    PowersAdd(52, 1022);
    assert Pow2(1022) >= 2 by {
      PowersAdd(1, 1021);
    }
  }

  /** Of the exponents, from where all are whole on; below it; and nought. */
  lemma MagnitudeIsWhole(exponent: nat, fraction: nat, n: nat)
    requires exponent < 0x7FF && fraction < TWO_52
    ensures exponent >= 1075 ==>
            (Magnitude(exponent, fraction, TWO_52) == n * Pow2(1074)
             <==> n == (TWO_52 + fraction) * Pow2(exponent - 1075))
    ensures 0 < exponent < 1075 ==>
            (Magnitude(exponent, fraction, TWO_52) == n * Pow2(1074)
             <==> TWO_52 + fraction == n * Pow2(1075 - exponent))
    ensures exponent == 0 ==> (Magnitude(exponent, fraction, TWO_52) == n * Pow2(1074) <==> fraction == n == 0)
  {
    hide Pow2;
    var m := TWO_52 + fraction;
    if exponent >= 1075 {
      PowersAdd(exponent - 1075, 1074);
      assert m * (Pow2(exponent - 1075) * Pow2(1074)) == m * Pow2(exponent - 1075) * Pow2(1074);
      CancelsPower(m * Pow2(exponent - 1075), n, 1074);
    } else if exponent > 0 {
      PowersAdd(1075 - exponent, exponent - 1);
      assert n * (Pow2(1075 - exponent) * Pow2(exponent - 1)) == n * Pow2(1075 - exponent) * Pow2(exponent - 1);
      CancelsPower(m, n * Pow2(1075 - exponent), exponent - 1);
    } else {
      Wide();
    }
  }

  /** A float counts as an integer exactly when it is one. */
  lemma {:induction false} FloatIsIntIff(bits: seq<Byte>, n: int)
    ensures FloatAsInt(bits) == Some(n) <==> IsInteger(bits, n)
  {
    hide Pow2, FromBigEndian, Magnitude;
    if |bits| == 8 {
      var e, f := Exponent64(bits), Fraction64(bits);
      var m := TWO_52 + f;
      if e < 0x7FF {
        MagnitudeIsWhole(e, f, Size(n));
        if 0 < e < 1075 {
          WholeIff(m, 1075 - e, Size(n));
        }
      }
    }
  }

  /** Which two keys are one: numbers of any kind by their value, and of the rest the same value
      and no other; but a float that is no number is not itself. */
  lemma SameKeySays(a: Value, b: Value, m: int, n: int, x: seq<Byte>)
    ensures SameKey(Int(m), Int(n)) <==> m == n
    ensures SameKey(Bool(true), Int(n)) <==> n == 1
    ensures SameKey(Bool(false), Int(n)) <==> n == 0
    ensures !SameKey(Bool(true), Bool(false))
    ensures SameKey(Float(x), Int(n)) <==> IsInteger(x, n)
    ensures SameKey(a, b) <==> SameKey(b, a)
    ensures SameKey(a, a) <==>
            !(a.Float? && |a.bits| == 8 && Exponent64(a.bits) == 0x7FF && Fraction64(a.bits) != 0)
    ensures !a.Float? && !b.Float? && !a.Int? && !b.Int? && !a.Bool? && !b.Bool? ==> (SameKey(a, b) <==> a == b)
  {
    FloatIsIntIff(x, n);
    hide IsInteger, FromBigEndian, Pow2;
  }
}
