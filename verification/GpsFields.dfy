/** Numbers in NMEA fields: `fixed`, `angle` and `coordinates` of `core/src/gps.rs`. Fields
    are ASCII bytes; `i64` arithmetic is written out as the release build does it, where
    overflow wraps unless it is checked. */
module GpsFields {
  import opened Bytes
  import opened Results
  import opened GpsLexer

  const MINUS: Byte := 0x2D
  const PLUS: Byte := 0x2B
  const DOT: Byte := 0x2E

  const I64_MAX := 0x7FFF_FFFF_FFFF_FFFF
  const I32_MAX := 0x7FFF_FFFF

  function WrapI64(n: int): int { (n + I64_MAX + 1) % 0x1_0000_0000_0000_0000 - I64_MAX - 1 }

  predicate IsDigit(b: Byte) { 0x30 <= b <= 0x39 }

  predicate AllDigits(s: seq<Byte>) { forall b | b in s :: IsDigit(b) }

  function DigitAt(s: seq<Byte>, i: nat): (d: nat)
    ensures d < 10
  {
    if i < |s| && IsDigit(s[i]) then (s[i] - 0x30) as nat else 0
  }

  /** The number decimal digits spell. */
  function Decimal(s: seq<Byte>): nat {
    if s == [] then 0 else Decimal(s[..|s| - 1]) * 10 + DigitAt(s, |s| - 1)
  }

  /** Where `b` first stands in `s`, or the length of `s`. */
  function Find(s: seq<Byte>, b: Byte): (i: nat)
    ensures i <= |s| && b !in s[..i]
    ensures i < |s| ==> s[i] == b
  {
    if s == [] || s[0] == b then 0
    else
      assert s[..1 + Find(s[1..], b)] == [s[0]] + s[1..][..Find(s[1..], b)];
      1 + Find(s[1..], b)
  }

  function BeforeDot(s: seq<Byte>): seq<Byte> { s[..Find(s, DOT)] }

  function AfterDot(s: seq<Byte>): seq<Byte> { if Find(s, DOT) < |s| then s[Find(s, DOT) + 1..] else [] }

  /** `str::parse::<i64>`: an optional sign, then digits, in range. */
  function ParseI64(s: seq<Byte>): Option<int> {
    var negative := s != [] && s[0] == MINUS;
    var digits := if s != [] && (s[0] == MINUS || s[0] == PLUS) then s[1..] else s;
    if digits == [] || !AllDigits(digits) then None
    else
      var n := if negative then -(Decimal(digits) as int) else Decimal(digits);
      if -I64_MAX - 1 <= n <= I64_MAX then Some(n) else None
  }

  /** A number in decimal, as it is written. */
  function Shown(n: nat): (s: seq<Byte>) {
    (if n < 10 then [] else Shown(n / 10)) + ["0123456789"[n % 10] as int as Byte]
  }

  lemma DigitIsShown(d: nat)
    requires d < 10
    ensures var c := "0123456789"[d] as int as Byte; IsDigit(c) && DigitAt([c], 0) == d
  {
    assert "0123456789"[d] as int == 0x30 + d;
  }

  /** The digits of a number spell it, with or without noughts in front; and there are ten of
      them. */
  lemma {:induction false} DecimalInvertsShown(n: nat)
    ensures AllDigits(Shown(n)) && Shown(n) != [] && Decimal(Shown(n)) == n && Decimal([0x30] + Shown(n)) == n
    ensures forall c :: IsDigit(c) <==> c as int as char in "0123456789"
  {
    hide Decimal, Shown, IsDigit;
    TenDigits();
    LastShown(n);
    if n < 10 {
      OneMoreSpelt([], n % 10);
      OneMoreSpelt([0x30], n % 10);
      NoughtIsSpelt();
      assert [0x30 as Byte] + [] == [0x30];
    } else {
      DecimalInvertsShown(n / 10);
      OneMoreSpelt(Shown(n / 10), n % 10);
      OneMoreSpelt([0x30] + Shown(n / 10), n % 10);
    }
    var most, last := if n < 10 then [] else Shown(n / 10), ["0123456789"[n % 10] as int as Byte];
    assert Shown(n) == most + last && [0x30] + Shown(n) == [0x30] + most + last;
  }

  lemma LastShown(n: nat)
    ensures Shown(n) == (if n < 10 then [] else Shown(n / 10)) + ["0123456789"[n % 10] as int as Byte]
  {
  }

  lemma NoughtIsSpelt()
    ensures Decimal([]) == Decimal([0x30]) == 0
  {
    assert [0x30 as Byte][..0] == [];
  }

  lemma OneMoreSpelt(s: seq<Byte>, d: nat)
    requires d < 10
    ensures var more := s + ["0123456789"[d] as int as Byte];
            && Decimal(more) == 10 * Decimal(s) + d
            && (AllDigits(s) ==> AllDigits(more))
  {
    hide Decimal;
    DigitIsShown(d);
    var c := "0123456789"[d] as int as Byte;
    SpeltAppends(s, c);
  }

  lemma SpeltAppends(s: seq<Byte>, c: Byte)
    ensures Decimal(s + [c]) == 10 * Decimal(s) + DigitAt([c], 0)
  {
    assert (s + [c])[..|s|] == s;
  }

  lemma TenDigits()
    ensures forall c :: IsDigit(c) <==> c as int as char in "0123456789"
  {
    forall c ensures IsDigit(c) <==> c as int as char in "0123456789" {
      if IsDigit(c) {
        assert "0123456789"[(c - 0x30) as int] as int == c as int;
      }
    }
  }

  // ----------------------------------------------------------------- fixed point

  /** `value` with the first `n` digits of `frac` appended, as the loop in `fixed` does it:
      the multiplication is checked, the addition is not. */
  function ScaleI64(value: int, frac: seq<Byte>, n: nat): Result<int, Malformed> {
    if n == 0 then Ok(value) else
    var v :- ScaleI64(value, frac, n - 1);
    if -I64_MAX - 1 <= v * 10 <= I64_MAX then Ok(WrapI64(v * 10 + DigitAt(frac, n - 1))) else Err(Field)
  }

  function Unsigned(s: seq<Byte>): seq<Byte> { if s != [] && s[0] == MINUS then s[1..] else s }

  predicate IsNegative(s: seq<Byte>) { s != [] && s[0] == MINUS }

  /** `[-]digits[.digits]`, with at least one digit. */
  predicate IsDecimal(s: seq<Byte>) {
    var u := Unsigned(s);
    AllDigits(BeforeDot(u)) && AllDigits(AfterDot(u)) && (BeforeDot(u) != [] || AfterDot(u) != [])
  }

  function Fixed(s: seq<Byte>, places: nat): Result<int, Malformed> {
    if !IsDecimal(s) then Err(Field) else
    var u := Unsigned(s);
    var whole := ParseI64(BeforeDot(u));
    var value :- ScaleI64(if whole.Some? then whole.value else 0, AfterDot(u), places);
    Ok(if IsNegative(s) then WrapI64(-value) else value)
  }

  /** `fixed`, with its loop. */
  method ReadFixed(s: seq<Byte>, places: nat) returns (r: Result<int, Malformed>)
    ensures r == Fixed(s, places)
  {
    var negative, u := IsNegative(s), Unsigned(s);
    if u == [] {
      return Err(Field);
    }
    var whole, frac := BeforeDot(u), AfterDot(u);
    if !AllDigits(whole) || !AllDigits(frac) {
      return Err(Field);
    }
    if whole == [] && frac == [] {
      return Err(Field);
    }
    var parsed := ParseI64(whole);
    var value := if parsed.Some? then parsed.value else 0;
    ghost var start := value;
    for n := 0 to places
      invariant ScaleI64(start, frac, n) == Ok(value)
    {
      if !(-I64_MAX - 1 <= value * 10 <= I64_MAX) {
        StaysErr(start, frac, n + 1, places);
        return Err(Field);
      }
      value := WrapI64(value * 10 + DigitAt(frac, n));
    }
    r := Ok(if negative then WrapI64(-value) else value);
  }

  lemma {:induction false} StaysErr(value: int, frac: seq<Byte>, n: nat, places: nat)
    requires n <= places && ScaleI64(value, frac, n).Err?
    ensures ScaleI64(value, frac, places) == Err(Field)
  {
    if n < places {
      StaysErr(value, frac, n, places - 1);
    } else if n > 0 && ScaleI64(value, frac, n - 1).Err? {
      StaysErr(value, frac, n - 1, places - 1);
    }
  }

  /** The same without a width: `w.frac` times ten to the `n`, truncated. */
  function Scaled(w: nat, frac: seq<Byte>, n: nat): nat {
    if n == 0 then w else Scaled(w, frac, n - 1) * 10 + DigitAt(frac, n - 1)
  }

  lemma WrapsOnce(n: nat)
    ensures n <= I64_MAX ==> WrapI64(n) == n
    ensures I64_MAX < n <= 2 * I64_MAX ==> WrapI64(n) == n - 0x1_0000_0000_0000_0000
  {
  }

  /** One more digit, with and without a width. */
  lemma OneMoreDigit(w: nat, frac: seq<Byte>, n: nat)
    requires n > 0
    ensures Scaled(w, frac, n) == Scaled(w, frac, n - 1) * 10 + DigitAt(frac, n - 1)
    ensures ScaleI64(w, frac, n - 1).Err? ==> ScaleI64(w, frac, n) == ScaleI64(w, frac, n - 1)
    ensures ScaleI64(w, frac, n - 1).Ok? ==>
            var v := ScaleI64(w, frac, n - 1).value;
            ScaleI64(w, frac, n)
            == if -I64_MAX - 1 <= v * 10 <= I64_MAX then Ok(WrapI64(v * 10 + DigitAt(frac, n - 1))) else Err(Field)
  {
    hide WrapI64, DigitAt;
  }

  lemma {:induction false} ScaleFits(w: nat, frac: seq<Byte>, n: nat)
    requires w <= I64_MAX
    ensures Scaled(w, frac, n) <= I64_MAX ==> ScaleI64(w, frac, n) == Ok(Scaled(w, frac, n))
    ensures Scaled(w, frac, n) > I64_MAX ==>
            ScaleI64(w, frac, n) == Err(Field)
            || (Scaled(w, frac, n) <= I64_MAX + 2
                && ScaleI64(w, frac, n) == Ok(Scaled(w, frac, n) - 0x1_0000_0000_0000_0000))
    ensures n > 0 && Scaled(w, frac, n) == I64_MAX + 1 ==> ScaleI64(w, frac, n).Ok?
  {
    hide WrapI64, Scaled, ScaleI64, DigitAt;
    if n == 0 {
      ScaledZero(w, frac);
      ScaledZeroI64(w, frac);
    } else {
      OneMoreDigit(w, frac, n);
      ScaleFits(w, frac, n - 1);
      WrapsOnce(Scaled(w, frac, n));
    }
  }

  lemma {:induction false} ScaleStaysInRange(w: int, frac: seq<Byte>, n: nat)
    requires -I64_MAX - 1 <= w <= I64_MAX
    ensures ScaleI64(w, frac, n).Ok? ==> -I64_MAX - 1 <= ScaleI64(w, frac, n).value <= I64_MAX
  {
    if n > 0 {
      ScaleStaysInRange(w, frac, n - 1);
    }
  }

  lemma {:induction false} ScaledGrows(w: nat, frac: seq<Byte>, n: nat)
    ensures n > 0 ==> Scaled(w, frac, n) >= 10 * w
    ensures Scaled(w, frac, n) >= w
  {
    if n > 0 {
      ScaledGrows(w, frac, n - 1);
    }
  }

  lemma DigitsHaveNoSign(s: seq<Byte>)
    requires AllDigits(s)
    ensures ParseI64(s) == if s == [] || Decimal(s) > I64_MAX then None else Some(Decimal(s))
  {
    if s != [] {
      assert s[0] in s;
    }
  }

  /** The number a decimal field spells, scaled and truncated. */
  function Spelled(s: seq<Byte>, places: nat): int {
    var m: int := Scaled(Decimal(BeforeDot(Unsigned(s))), AfterDot(Unsigned(s)), places);
    if IsNegative(s) then -m else m
  }

  /** `fixed` gives the number the field spells exactly when an `i64` holds it -- but for
      the least of them written whole, which is read as zero. A whole part too long for an
      `i64` is not refused. */
  lemma FixedIsExactIff(s: seq<Byte>, places: nat)
    requires IsDecimal(s)
    ensures Fixed(s, places) == Ok(Spelled(s, places))
            <==> -I64_MAX <= Spelled(s, places) <= I64_MAX || (Spelled(s, places) == -I64_MAX - 1 && places > 0)
  {
    hide Fixed, Decimal, IsDecimal, BeforeDot, AfterDot, Scaled, ScaleI64, Unsigned, WrapI64;
    var w, frac := Decimal(BeforeDot(Unsigned(s))), AfterDot(Unsigned(s));
    FixedFromParts(s, places);
    ScaledGrows(w, frac, places);
    ScaledZero(w, frac);
    if w <= I64_MAX {
      ScaleFits(w, frac, places);
      SignedScale(Scaled(w, frac, places));
    } else {
      ScaleStaysInRange(0, frac, places);
      ScaledZeroI64(0, frac);
      SignedInRange(if ScaleI64(0, frac, places).Ok? then ScaleI64(0, frac, places).value else 0);
    }
  }

  /** What `fixed` makes of a decimal: the loop from its whole part, or from zero if that is
      too long, with the sign in front. */
  lemma FixedFromParts(s: seq<Byte>, places: nat)
    requires IsDecimal(s)
    ensures var w := Decimal(BeforeDot(Unsigned(s)));
            var scaled := ScaleI64(if w <= I64_MAX then w else 0, AfterDot(Unsigned(s)), places);
            Fixed(s, places)
            == if scaled.Err? then scaled else Ok(if IsNegative(s) then WrapI64(-scaled.value) else scaled.value)
  {
    var whole := BeforeDot(Unsigned(s));
    DigitsHaveNoSign(whole);
    assert whole == [] ==> Decimal(whole) == 0;
    hide Decimal, BeforeDot, AfterDot, ParseI64, ScaleI64, Unsigned, WrapI64;
  }

  lemma SignedScale(m: nat)
    ensures m <= I64_MAX ==> WrapI64(-(m as int)) == -(m as int)
    ensures I64_MAX < m <= I64_MAX + 2 ==>
            (WrapI64(-(m - 0x1_0000_0000_0000_0000)) == -(m as int) <==> m == I64_MAX + 1)
  {
  }

  lemma SignedInRange(v: int)
    requires -I64_MAX - 1 <= v <= I64_MAX
    ensures -I64_MAX - 1 <= WrapI64(-v) <= I64_MAX && (v == 0 ==> WrapI64(-v) == 0)
  {
  }

  lemma ScaledZero(w: nat, frac: seq<Byte>)
    ensures Scaled(w, frac, 0) == w
  {
  }

  lemma ScaledZeroI64(w: int, frac: seq<Byte>)
    ensures ScaleI64(w, frac, 0) == Ok(w)
  {
  }

  /** A whole part beyond an `i64` is read as zero, and is not refused. */
  lemma OverlongWholeReadsAsZero(s: seq<Byte>, places: nat)
    requires IsDecimal(s) && !IsNegative(s) && Decimal(BeforeDot(s)) > I64_MAX && AfterDot(s) == []
    ensures Fixed(s, places) == Ok(0) && Spelled(s, places) > I64_MAX
  {
    DigitsHaveNoSign(BeforeDot(s));
    ScaledGrows(Decimal(BeforeDot(s)), [], places);
    ZeroScales(places);
  }

  function Tens(n: nat): nat { if n == 0 then 1 else 10 * Tens(n - 1) }

  lemma {:induction false} DigitsAreWorth(s: seq<Byte>)
    requires s != [] && AllDigits(s) && s[0] != 0x30
    ensures Decimal(s) >= Tens(|s| - 1)
    decreases |s|
  {
    assert s[0] in s;
    if |s| > 1 {
      var most := s[..|s| - 1];
      assert forall b | b in most :: b in s;
      DigitsAreWorth(most);
    } else {
      assert s[..0] == [];
    }
  }

  lemma {:induction false} TensGrow(m: nat, n: nat)
    requires m <= n
    ensures Tens(m) <= Tens(n)
  {
    if m < n {
      TensGrow(m, n - 1);
    }
  }

  lemma NineteenNoughts()
    ensures Tens(19) == 10_000_000_000_000_000_000 > I64_MAX
  {
    assert Tens(4) == 10_000 && Tens(8) == 100_000_000 && Tens(12) == 1_000_000_000_000;
    assert Tens(16) == 10_000_000_000_000_000;
  }

  /** Any twenty digits and more, not padded, are such a whole part. */
  lemma TwentyDigitsReadAsZero(s: seq<Byte>, places: nat)
    requires |s| >= 20 && AllDigits(s) && s[0] != 0x30
    ensures IsDecimal(s) && Fixed(s, places) == Ok(0) && Spelled(s, places) > I64_MAX
  {
    hide Decimal, Fixed, Tens;
    assert s[0] in s && DOT !in s;
    NoDot(s);
    DigitsAreWorth(s);
    TensGrow(19, |s| - 1);
    NineteenNoughts();
    OverlongWholeReadsAsZero(s, places);
  }

  lemma {:induction false} ZeroScales(n: nat)
    ensures ScaleI64(0, [], n) == Ok(0)
  {
    if n > 0 {
      ZeroScales(n - 1);
    }
  }

  // --------------------------------------------------- what the digits are worth

  function Pow10(n: nat): (p: real)
    ensures p >= 1.0
  {
    if n == 0 then 1.0 else 10.0 * Pow10(n - 1)
  }

  /** The fraction decimal digits after the point spell. */
  function Fraction(frac: seq<Byte>): (x: real)
    ensures 0.0 <= x < 1.0
    decreases |frac|
  {
    if frac == [] then 0.0 else (DigitAt(frac, 0) as real + Fraction(frac[1..])) / 10.0
  }

  lemma {:induction false} ScaledShifts(w: nat, frac: seq<Byte>, n: nat)
    requires n > 0
    ensures Scaled(w, frac, n)
         == Scaled(w * 10 + DigitAt(frac, 0), if frac == [] then [] else frac[1..], n - 1)
  {
    if n > 1 {
      ScaledShifts(w, frac, n - 1);
    }
  }

  /** `k` is `x * p` truncated. */
  predicate Truncates(k: nat, x: real, p: real) { k as real <= x * p < k as real + 1.0 }

  /** `Scaled` is the value times ten to the `n`, truncated. */
  lemma {:induction false} ScaledTruncates(w: nat, frac: seq<Byte>, n: nat)
    ensures Truncates(Scaled(w, frac, n), w as real + Fraction(frac), Pow10(n))
    decreases n
  {
    if n > 0 {
      var d, rest := DigitAt(frac, 0), if frac == [] then [] else frac[1..];
      hide Truncates;
      ScaledTruncates(w * 10 + d, rest, n - 1);
      ScaledShifts(w, frac, n);
      FractionShifts(w, frac);
      hide Fraction, Scaled, DigitAt;
      Regroup(Scaled(w, frac, n), w as real + Fraction(frac), Pow10(n - 1));
    }
  }

  lemma FractionShifts(w: nat, frac: seq<Byte>)
    ensures (w * 10 + DigitAt(frac, 0)) as real + Fraction(if frac == [] then [] else frac[1..])
         == 10.0 * (w as real + Fraction(frac))
  {
  }

  lemma Regroup(k: nat, x: real, p: real)
    requires Truncates(k, 10.0 * x, p)
    ensures Truncates(k, x, 10.0 * p)
  {
    assert x * (10.0 * p) == (10.0 * x) * p;
  }

  // ---------------------------------------------------------------------- angles

  function Angle(s: seq<Byte>, degreeDigits: nat): Result<int, Malformed> {
    var wholeLen := Find(s, DOT);
    if wholeLen != degreeDigits + 2 then Err(Field) else
    var deg := ParseI64(s[..wholeLen - 2]);
    if deg.None? then Err(Field) else
    var microMin :- Fixed(s[wholeLen - 2..], 6);
    if !(0 <= microMin < 60_000_000) then Err(Field) else
    var udeg := deg.value * 1_000_000 + (microMin + 30) / 60;
    if -I32_MAX - 1 <= udeg <= I32_MAX then Ok(udeg) else Err(Field)
  }

  /** `ddmm[.mmmm]`: digits only, and as many of degrees as every receiver sends. */
  predicate IsAngle(s: seq<Byte>, degreeDigits: nat) {
    Find(s, DOT) == degreeDigits + 2 && AllDigits(BeforeDot(s)) && AllDigits(AfterDot(s))
  }

  function Degrees(s: seq<Byte>, degreeDigits: nat): nat
    requires IsAngle(s, degreeDigits)
  {
    Decimal(s[..degreeDigits])
  }

  function WholeMinutes(s: seq<Byte>, degreeDigits: nat): nat
    requires IsAngle(s, degreeDigits)
  {
    Decimal(s[degreeDigits..degreeDigits + 2])
  }

  /** The angle as written, in minutes of arc. */
  function Minutes(s: seq<Byte>, degreeDigits: nat): real
    requires IsAngle(s, degreeDigits)
  {
    60.0 * Degrees(s, degreeDigits) as real
    + (WholeMinutes(s, degreeDigits) as real + Fraction(AfterDot(s)))
  }

  function MicroMinutes(s: seq<Byte>, degreeDigits: nat): nat
    requires IsAngle(s, degreeDigits)
  {
    60_000_000 * Degrees(s, degreeDigits) + Scaled(WholeMinutes(s, degreeDigits), AfterDot(s), 6)
  }

  lemma {:induction false} DecimalBound(s: seq<Byte>)
    ensures |s| == 2 ==> Decimal(s) < 100
    ensures |s| <= 3 ==> Decimal(s) < 1000
  {
    if s != [] {
      DecimalBound(s[..|s| - 1]);
      if |s| == 2 {
        assert Decimal(s[..1]) == Decimal(s[..1][..0]) * 10 + DigitAt(s[..1], 0);
      }
    }
  }

  lemma {:induction false} FindAfterDigits(s: seq<Byte>, n: nat)
    requires Find(s, DOT) >= n && n <= |s|
    ensures Find(s[n..], DOT) == Find(s, DOT) - n
    ensures BeforeDot(s[n..]) == s[n..Find(s, DOT)] && AfterDot(s[n..]) == AfterDot(s)
    decreases n
  {
    if n == 0 {
      assert s[0..] == s;
    } else {
      FindAfterDigits(s[1..], n - 1);
      assert s[1..][n - 1..] == s[n..];
    }
  }

  /** What the two halves of a written angle are read as. */
  lemma PartsOfAngle(s: seq<Byte>, n: nat)
    requires 1 <= n <= 3 && IsAngle(s, n)
    ensures Find(s, DOT) == n + 2 && AllDigits(s[..n]) && Degrees(s, n) < 1000
    ensures ParseI64(s[..n]) == Some(Degrees(s, n))
    ensures Fixed(s[n..], 6) == Ok(Scaled(WholeMinutes(s, n), AfterDot(s), 6))
    ensures Scaled(WholeMinutes(s, n), AfterDot(s), 6) < 60_000_000 <==> WholeMinutes(s, n) < 60
  {
    var whole := BeforeDot(s);
    assert s[n..n + 2] == whole[n..] && s[..n] == whole[..n];
    FindAfterDigits(s, n);
    DigitsHaveNoSign(s[..n]);
    DecimalBound(s[..n]);
    hide Decimal, Fixed, ParseI64, Scaled, BeforeDot, AfterDot, Find;
    MinutesAreExact(s[n..]);
  }

  lemma AngleFromParts(s: seq<Byte>, n: nat, d: int, m: int)
    requires Find(s, DOT) == n + 2 && -1000 < d < 1000
    requires ParseI64(s[..n]) == Some(d) && Fixed(s[n..], 6) == Ok(m)
    ensures Angle(s, n) == if 0 <= m < 60_000_000 then Ok(d * 1_000_000 + (m + 30) / 60) else Err(Field)
  {
    hide Find, ParseI64, Fixed;
  }

  lemma WholeDegreesStayWhole(d: int, m: int)
    ensures (60_000_000 * d + m + 30) / 60 == 1_000_000 * d + (m + 30) / 60
  {
  }

  /** A written angle is accepted exactly when it has fewer than sixty minutes, and then it
      is its micro-minutes to the nearest micro-degree. */
  lemma {:induction false} AngleIsNearest(s: seq<Byte>, degreeDigits: nat)
    requires 1 <= degreeDigits <= 3 && IsAngle(s, degreeDigits)
    ensures Angle(s, degreeDigits).Ok? <==> WholeMinutes(s, degreeDigits) < 60
    ensures Angle(s, degreeDigits).Ok? ==>
            -30 < 60 * Angle(s, degreeDigits).value - MicroMinutes(s, degreeDigits) <= 30
            && Angle(s, degreeDigits).value == (MicroMinutes(s, degreeDigits) + 30) / 60
  {
    hide Angle, IsAngle, WholeMinutes, Degrees, Scaled, AfterDot, ParseI64, Fixed;
    var m := Scaled(WholeMinutes(s, degreeDigits), AfterDot(s), 6);
    PartsOfAngle(s, degreeDigits);
    AngleFromParts(s, degreeDigits, Degrees(s, degreeDigits), m);
    WholeDegreesStayWhole(Degrees(s, degreeDigits), m);
  }

  /** Two digits of minutes and a fraction are never too much for `fixed`. */
  lemma MinutesAreExact(min: seq<Byte>)
    requires AllDigits(BeforeDot(min)) && AllDigits(AfterDot(min)) && |BeforeDot(min)| == 2
    ensures Fixed(min, 6) == Ok(Scaled(Decimal(BeforeDot(min)), AfterDot(min), 6))
    ensures Scaled(Decimal(BeforeDot(min)), AfterDot(min), 6) < 60_000_000 <==> Decimal(BeforeDot(min)) < 60
  {
    assert min[0] == BeforeDot(min)[0] && BeforeDot(min)[0] in BeforeDot(min);
    assert Unsigned(min) == min && !IsNegative(min);
    DecimalBound(BeforeDot(min));
    var w, frac := Decimal(BeforeDot(min)), AfterDot(min);
    SixPlaces(w, frac);
    hide Decimal, BeforeDot, AfterDot, Scaled;
    FixedIsExactIff(min, 6);
  }

  lemma SixPlaces(w: nat, frac: seq<Byte>)
    ensures w * 1_000_000 <= Scaled(w, frac, 6) < (w + 1) * 1_000_000
  {
    assert Scaled(w, frac, 1) == w * 10 + DigitAt(frac, 0);
    assert Scaled(w, frac, 2) == Scaled(w, frac, 1) * 10 + DigitAt(frac, 1);
    assert Scaled(w, frac, 3) == Scaled(w, frac, 2) * 10 + DigitAt(frac, 2);
    assert Scaled(w, frac, 4) == Scaled(w, frac, 3) * 10 + DigitAt(frac, 3);
    assert Scaled(w, frac, 5) == Scaled(w, frac, 4) * 10 + DigitAt(frac, 4);
  }

  lemma MicroMinutesTruncate(s: seq<Byte>, degreeDigits: nat)
    requires IsAngle(s, degreeDigits)
    ensures MicroMinutes(s, degreeDigits) as real
            <= 1_000_000.0 * Minutes(s, degreeDigits)
            < MicroMinutes(s, degreeDigits) as real + 1.0
  {
    var w, frac := WholeMinutes(s, degreeDigits), AfterDot(s);
    ScaledTruncates(w, frac, 6);
    assert Pow10(6) == 1_000_000.0 by {
      assert Pow10(3) == 1000.0 && Pow10(4) == 10_000.0 && Pow10(5) == 100_000.0;
    }
    hide Scaled, Fraction, Decimal, Pow10;
  }

  /** From the written text to micro-degrees, truncation and rounding together are less
      than 31/60 of a micro-degree out. */
  lemma AngleErrorBound(s: seq<Byte>, degreeDigits: nat)
    requires 1 <= degreeDigits <= 3 && IsAngle(s, degreeDigits) && Angle(s, degreeDigits).Ok?
    ensures -31.0 < 60.0 * Angle(s, degreeDigits).value as real - 1_000_000.0 * Minutes(s, degreeDigits) <= 30.0
  {
    AngleIsNearest(s, degreeDigits);
    MicroMinutesTruncate(s, degreeDigits);
    hide Angle, Minutes, MicroMinutes, WholeMinutes, IsAngle;
  }

  /** A greater written angle is never read as a smaller one, however many digits each has. */
  lemma {:induction false} AngleIsMonotone(s: seq<Byte>, t: seq<Byte>, degreeDigits: nat)
    requires 1 <= degreeDigits <= 3 && IsAngle(s, degreeDigits) && IsAngle(t, degreeDigits)
    requires Angle(s, degreeDigits).Ok? && Angle(t, degreeDigits).Ok?
    requires Minutes(s, degreeDigits) <= Minutes(t, degreeDigits)
    ensures Angle(s, degreeDigits).value <= Angle(t, degreeDigits).value
  {
    AngleIsNearest(s, degreeDigits);
    AngleIsNearest(t, degreeDigits);
    MicroMinutesTruncate(s, degreeDigits);
    MicroMinutesTruncate(t, degreeDigits);
    hide Angle, Minutes, MicroMinutes, WholeMinutes, IsAngle;
  }

  /** A minus sign in the degrees is taken, and for the degrees alone: `-530` is half a
      degree above minus five. It means what it says only with no minutes to speak of. */
  lemma {:induction false} SignedDegreesAreMisread(s: seq<Byte>, degreeDigits: nat)
    requires 2 <= degreeDigits <= 3 && s != [] && s[0] == MINUS && IsAngle(s[1..], degreeDigits - 1)
    ensures Angle(s, degreeDigits).Ok? <==> Angle(s[1..], degreeDigits - 1).Ok?
    ensures Angle(s, degreeDigits).Ok? ==>
            (Angle(s, degreeDigits).value == -Angle(s[1..], degreeDigits - 1).value
             <==> Scaled(WholeMinutes(s[1..], degreeDigits - 1), AfterDot(s), 6) < 30)
  {
    hide Angle, IsAngle, WholeMinutes, Decimal, Scaled, AfterDot, ParseI64, Fixed, Find;
    var t, n := s[1..], degreeDigits;
    var d: int, m: int := Degrees(t, n - 1), Scaled(WholeMinutes(t, n - 1), AfterDot(t), 6);
    PartsOfAngle(t, n - 1);
    AngleFromParts(t, n - 1, d, m);
    SignedParts(s, n);
    assert s[n..] == t[n - 1..];
    AngleFromParts(s, n, -d, m);
  }

  /** Digits, behind one sign of either kind or none. */
  predicate IsSigned(s: seq<Byte>) {
    var digits := if s != [] && (s[0] == MINUS || s[0] == PLUS) then s[1..] else s;
    digits != [] && AllDigits(digits)
  }

  function SignedDecimal(s: seq<Byte>): int {
    if s != [] && s[0] == MINUS then -(Decimal(s[1..]) as int)
    else if s != [] && s[0] == PLUS then Decimal(s[1..])
    else Decimal(s)
  }

  /** Two places of minutes: digits below sixty, or, as `-0` with nothing behind the point that
      shows, no minutes at all. */
  predicate IsMinutes(min: seq<Byte>, frac: seq<Byte>) {
    && |min| == 2 && AllDigits(frac)
    && if min[0] == MINUS then min[1] == 0x30 && Scaled(0, frac, 6) == 0 else AllDigits(min) && Decimal(min) < 60
  }

  function MinutesRead(min: seq<Byte>, frac: seq<Byte>): nat
    requires IsMinutes(min, frac)
  {
    if min[0] == MINUS then 0 else Scaled(Decimal(min), frac, 6)
  }

  lemma ParsesShortDegrees(s: seq<Byte>)
    requires 1 <= |s| <= 3
    ensures ParseI64(s) == if IsSigned(s) then Some(SignedDecimal(s)) else None
    ensures -1000 < SignedDecimal(s) < 1000
  {
    DecimalBound(s);
    DecimalBound(s[1..]);
    hide Decimal;
  }

  /** `i64` from text: digits behind one sign or none, in range. */
  lemma ParseI64Iff(s: seq<Byte>, n: int)
    ensures ParseI64(s) == Some(n) <==>
            IsSigned(s) && SignedDecimal(s) == n && -0x8000_0000_0000_0000 <= n < 0x8000_0000_0000_0000
  {
    hide Decimal;
  }

  lemma OneDigit(d: Byte)
    ensures Decimal([d]) == DigitAt([d], 0)
  {
    assert [d][..0] == [];
  }

  /** What `fixed` makes of two places of minutes and what follows the point. */
  lemma MinutesAreRead(s: seq<Byte>)
    requires Find(s, DOT) == 2
    ensures var min, frac, r := BeforeDot(s), AfterDot(s), Fixed(s, 6);
            && |min| == 2
            && (r.Ok? && 0 <= r.value < 60_000_000 <==> IsMinutes(min, frac))
            && (IsMinutes(min, frac) ==> r == Ok(MinutesRead(min, frac)))
  {
    var min, frac := BeforeDot(s), AfterDot(s);
    assert s[0] == min[0] && s[1] == min[1];
    if s[0] == MINUS {
      NegativeMinutes(s);
    } else if AllDigits(min) && AllDigits(frac) {
      hide Decimal, Find, Fixed, Scaled;
      MinutesAreExact(s);
    } else {
      NotDecimal(s);
    }
  }

  lemma NotDecimal(s: seq<Byte>)
    requires !IsNegative(s) && !(AllDigits(BeforeDot(s)) && AllDigits(AfterDot(s)))
    ensures Fixed(s, 6).Err?
  {
  }

  lemma NegativeMinutes(s: seq<Byte>)
    requires Find(s, DOT) == 2 && s[0] == MINUS
    ensures var min, frac, r := BeforeDot(s), AfterDot(s), Fixed(s, 6);
            && (r.Ok? && 0 <= r.value < 60_000_000 <==> min[1] == 0x30 && AllDigits(frac) && Scaled(0, frac, 6) == 0)
            && (r.Ok? && 0 <= r.value ==> r == Ok(0))
  {
    var u, frac := s[1..], AfterDot(s);
    FindAfterDigits(s, 1);
    assert BeforeDot(u) == [s[1]] && AfterDot(u) == frac && Unsigned(s) == u;
    OneDigit(s[1]);
    assert AllDigits([s[1]]) <==> IsDigit(s[1]);
    SixPlaces(Decimal([s[1]]), frac);
    hide Decimal, Find, Scaled;
    if IsDecimal(s) {
      FixedIsExactIff(s, 6);
    }
  }

  /** The angles accepted, all of them, and as what: three shapes more than are ever written,
      a plus or a minus among the degrees' digits, and minus nought minutes. */
  lemma AngleIff(s: seq<Byte>, degreeDigits: nat)
    requires 1 <= degreeDigits <= 3
    ensures Angle(s, degreeDigits).Ok? <==>
            && Find(s, DOT) == degreeDigits + 2
            && IsSigned(s[..degreeDigits]) && IsMinutes(s[degreeDigits..degreeDigits + 2], AfterDot(s))
    ensures Angle(s, degreeDigits).Ok? ==>
            Angle(s, degreeDigits).value
            == 1_000_000 * SignedDecimal(s[..degreeDigits])
               + (MinutesRead(s[degreeDigits..degreeDigits + 2], AfterDot(s)) + 30) / 60
  {
    hide ParseI64, Fixed, IsSigned, IsMinutes, SignedDecimal, MinutesRead, AfterDot;
    var n := degreeDigits;
    if Find(s, DOT) == n + 2 {
      FindAfterDigits(s, n);
      ParsesShortDegrees(s[..n]);
      MinutesAreRead(s[n..]);
      hide Find;
    }
  }

  /** `-530`, said of latitude: four and a half degrees down, where it says five and a half. */
  lemma MinusFiveThirty()
    ensures var s := [MINUS, 0x35, 0x33, 0x30];
            && IsAngle(s[1..], 1) && Angle(s[1..], 1) == Ok(5_500_000)
            && Angle(s, 2).Ok? && Angle(s, 2).value != -5_500_000
  {
    hide IsAngle, WholeMinutes, AfterDot, Angle, Scaled;
    var s := [MINUS, 0x35, 0x33, 0x30];
    assert s[1..] == [0x35, 0x33, 0x30];
    FiveThirty();
    SignedDegreesAreMisread(s, 2);
    SixPlaces(30, []);
    NoDot(s);
  }

  lemma NoDot(s: seq<Byte>)
    requires DOT !in s
    ensures Find(s, DOT) == |s| && AfterDot(s) == [] && BeforeDot(s) == s
  {
    hide Find;
    forall i | 0 <= i < |s| ensures s[i] != DOT {
      assert s[i] in s;
    }
  }

  lemma FiveThirtyParts()
    ensures var t: seq<Byte> := [0x35, 0x33, 0x30];
            && IsAngle(t, 1) && Degrees(t, 1) == 5 && WholeMinutes(t, 1) == 30 && AfterDot(t) == []
  {
    hide Find, Decimal, BeforeDot, AfterDot;
    var t: seq<Byte> := [0x35, 0x33, 0x30];
    NoDot(t);
    TwoDigitsSpell();
    assert t[..1] == [0x35] && t[1..3] == [0x33, 0x30];
  }

  lemma FiveThirty()
    ensures var t: seq<Byte> := [0x35, 0x33, 0x30];
            && IsAngle(t, 1) && WholeMinutes(t, 1) == 30 && AfterDot(t) == [] && Angle(t, 1) == Ok(5_500_000)
  {
    hide IsAngle, Degrees, WholeMinutes, AfterDot, Angle, Scaled;
    FiveThirtyParts();
    SixNoughts(30);
    AngleIsNearest([0x35, 0x33, 0x30], 1);
  }

  lemma TwoDigitsSpell()
    ensures Decimal([0x35]) == 5 && Decimal([0x33, 0x30]) == 30
  {
    assert [0x35 as Byte][..0] == [];
    assert [0x33 as Byte, 0x30][..1] == [0x33] && [0x33 as Byte][..0] == [];
    assert Decimal([0x33]) == 3;
  }

  lemma SixNoughts(w: nat)
    ensures Scaled(w, [], 6) == w * 1_000_000
  {
    assert Scaled(w, [], 0) == w && Scaled(w, [], 1) == w * 10 && Scaled(w, [], 2) == w * 100;
    assert Scaled(w, [], 3) == w * 1_000 && Scaled(w, [], 4) == w * 10_000 && Scaled(w, [], 5) == w * 100_000;
  }

  lemma SignedParts(s: seq<Byte>, n: nat)
    requires 2 <= n <= 3 && s != [] && s[0] == MINUS && Find(s[1..], DOT) == n + 1 && AllDigits(s[1..][..n - 1])
    requires Decimal(s[1..][..n - 1]) < 1000
    ensures Find(s, DOT) == n + 2 && AfterDot(s) == AfterDot(s[1..])
    ensures ParseI64(s[..n]) == Some(-(Decimal(s[1..][..n - 1]) as int))
  {
    FindAfterDigits(s, 1);
    hide Decimal;
    assert s[..n][1..] == s[1..][..n - 1];
  }

  const NORTH: seq<Byte> := [0x4E]
  const SOUTH: seq<Byte> := [0x53]
  const EAST: seq<Byte> := [0x45]
  const WEST: seq<Byte> := [0x57]

  function Coordinates(lat: seq<Byte>, ns: seq<Byte>, lon: seq<Byte>, ew: seq<Byte>)
      : (r: Result<Option<(int, int)>, Malformed>)
    ensures r.Ok? && r.value.Some? ==>
            -90_000_000 <= r.value.value.0 <= 90_000_000 && -180_000_000 <= r.value.value.1 <= 180_000_000
  {
    if lat == [] && lon == [] then Ok(None) else
    var y :- Angle(lat, 2);
    var x :- Angle(lon, 3);
    if (ns != NORTH && ns != SOUTH) || (ew != EAST && ew != WEST) then Err(Field) else
    var latitude, longitude := if ns == NORTH then y else -y, if ew == EAST then x else -x;
    if !(-90_000_000 <= latitude <= 90_000_000) || !(-180_000_000 <= longitude <= 180_000_000) then Err(Field)
    else Ok(Some((latitude, longitude)))
  }

  /** A well-shaped angle's micro-minutes, in micro-degrees to the nearest. */
  function MicroDegrees(s: seq<Byte>, degreeDigits: nat): nat
    requires IsAngle(s, degreeDigits)
  {
    (MicroMinutes(s, degreeDigits) + 30) / 60
  }

  /** A pair of well-shaped angles is a place exactly with its minutes under sixty, its
      hemispheres named and itself on the globe; north and east count up, south and west
      down. */
  lemma CoordinatesAreSigned(lat: seq<Byte>, ns: seq<Byte>, lon: seq<Byte>, ew: seq<Byte>)
    requires IsAngle(lat, 2) && IsAngle(lon, 3)
    ensures Coordinates(lat, ns, lon, ew).Ok? <==>
            && WholeMinutes(lat, 2) < 60 && WholeMinutes(lon, 3) < 60
            && (ns == NORTH || ns == SOUTH) && (ew == EAST || ew == WEST)
            && MicroDegrees(lat, 2) <= 90_000_000 && MicroDegrees(lon, 3) <= 180_000_000
    ensures Coordinates(lat, ns, lon, ew).Ok? ==>
            Coordinates(lat, ns, lon, ew).value == Some((
              if ns == NORTH then MicroDegrees(lat, 2) else -(MicroDegrees(lat, 2) as int),
              if ew == EAST then MicroDegrees(lon, 3) else -(MicroDegrees(lon, 3) as int)))
  {
    hide Angle, IsAngle, WholeMinutes, MicroDegrees, Coordinates;
    AngleIsMicroDegrees(lat, 2);
    AngleIsMicroDegrees(lon, 3);
    ShapedIsNotEmpty(lat, 2);
    if Angle(lat, 2).Ok? && Angle(lon, 3).Ok? {
      PlaceOf(lat, ns, lon, ew, MicroDegrees(lat, 2), MicroDegrees(lon, 3));
    } else {
      NoPlace(lat, ns, lon, ew);
    }
  }

  lemma AngleIsMicroDegrees(s: seq<Byte>, degreeDigits: nat)
    requires 1 <= degreeDigits <= 3 && IsAngle(s, degreeDigits)
    ensures Angle(s, degreeDigits).Ok? <==> WholeMinutes(s, degreeDigits) < 60
    ensures Angle(s, degreeDigits).Ok? ==> Angle(s, degreeDigits).value == MicroDegrees(s, degreeDigits)
  {
    hide Angle, IsAngle, WholeMinutes, MicroMinutes;
    AngleIsNearest(s, degreeDigits);
  }

  lemma PlaceOf(lat: seq<Byte>, ns: seq<Byte>, lon: seq<Byte>, ew: seq<Byte>, y: nat, x: nat)
    requires lat != [] && Angle(lat, 2) == Ok(y) && Angle(lon, 3) == Ok(x)
    ensures Coordinates(lat, ns, lon, ew) ==
            if (ns == NORTH || ns == SOUTH) && (ew == EAST || ew == WEST) && y <= 90_000_000 && x <= 180_000_000
            then Ok(Some((if ns == NORTH then y else -(y as int), if ew == EAST then x else -(x as int))))
            else Err(Field)
  {
    hide Angle;
  }

  lemma NoPlace(lat: seq<Byte>, ns: seq<Byte>, lon: seq<Byte>, ew: seq<Byte>)
    requires lat != [] && (Angle(lat, 2).Err? || Angle(lon, 3).Err?)
    ensures Coordinates(lat, ns, lon, ew).Err?
  {
    hide Angle;
  }

  lemma ShapedIsNotEmpty(s: seq<Byte>, degreeDigits: nat)
    requires IsAngle(s, degreeDigits)
    ensures s != []
  {
  }

  /** And of any fields at all: a place comes out exactly when each angle is read, its
      hemisphere is named and gives it its sign, and the place is on the globe. */
  lemma PlaceIff(lat: seq<Byte>, ns: seq<Byte>, lon: seq<Byte>, ew: seq<Byte>, y: int, x: int)
    ensures Coordinates(lat, ns, lon, ew) == Ok(Some((y, x))) <==>
            && (lat != [] || lon != [])
            && ((ns == NORTH && Angle(lat, 2) == Ok(y)) || (ns == SOUTH && Angle(lat, 2) == Ok(-y)))
            && ((ew == EAST && Angle(lon, 3) == Ok(x)) || (ew == WEST && Angle(lon, 3) == Ok(-x)))
            && -90_000_000 <= y <= 90_000_000 && -180_000_000 <= x <= 180_000_000
  {
    hide Angle;
  }

  /** No fix, and no error, is both angles empty and nothing else. */
  lemma NoFixIff(lat: seq<Byte>, ns: seq<Byte>, lon: seq<Byte>, ew: seq<Byte>)
    ensures Coordinates(lat, ns, lon, ew) == Ok(None) <==> lat == [] && lon == []
  {
    hide Angle;
  }
}
