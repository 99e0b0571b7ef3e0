/** UTF-8 is what encoding makes: the bytes that count as text are exactly the encodings of code
    points, as section 3 of RFC 3629 gives them. */
module Utf8Laws {
  import opened Bytes
  import opened PythonValues

  /** A code point that is no surrogate. */
  predicate Scalar(c: nat) { c < 0xD800 || 0xE000 <= c < 0x11_0000 }

  /** The low six bits of `c`, behind `10`. */
  function Tail(c: nat): Byte { (0x80 + c % 0x40) as Byte }

  function Encoded(c: nat): (s: seq<Byte>)
    requires Scalar(c)
    ensures s != []
  {
    if c < 0x80 then [c as Byte]
    else if c < 0x800 then [(0xC0 + c / 0x40) as Byte, Tail(c)]
    else if c < 0x1_0000 then [(0xE0 + c / 0x1000) as Byte, Tail(c / 0x40), Tail(c)]
    else [(0xF0 + c / 0x4_0000) as Byte, Tail(c / 0x1000), Tail(c / 0x40), Tail(c)]
  }

  predicate Scalars(cs: seq<nat>) { forall c | c in cs :: Scalar(c) }

  function EncodedAll(cs: seq<nat>): seq<Byte>
    requires Scalars(cs)
  {
    if cs == [] then [] else Encoded(cs[0]) + EncodedAll(cs[1..])
  }

  /** The code point two, three or four bytes were made of. */
  function Decoded(s: seq<Byte>): nat
    requires Utf8Step(s) > 0
  {
    match Utf8Step(s)
    case 1 => s[0] as nat
    case 2 => (s[0] - 0xC0) as nat * 0x40 + (s[1] - 0x80) as nat
    case 3 => (s[0] - 0xE0) as nat * 0x1000 + (s[1] - 0x80) as nat * 0x40 + (s[2] - 0x80) as nat
    case _ =>
      (s[0] - 0xF0) as nat * 0x4_0000 + (s[1] - 0x80) as nat * 0x1000 + (s[2] - 0x80) as nat * 0x40
      + (s[3] - 0x80) as nat
  }

  lemma DigitsOf64(a: nat, b: nat)
    requires b < 0x40
    ensures (a * 0x40 + b) / 0x40 == a && (a * 0x40 + b) % 0x40 == b
  {
  }

  lemma TwoBytes(a: Byte, b: Byte)
    requires 0xC2 <= a <= 0xDF && Continuation(b)
    ensures var c := (a - 0xC0) as nat * 0x40 + (b - 0x80) as nat;
            Scalar(c) && Encoded(c) == [a, b]
  {
    DigitsOf64((a - 0xC0) as nat, (b - 0x80) as nat);
  }

  lemma ThreeBytes(a: Byte, b: Byte, c: Byte)
    requires Utf8Lead3(a, b) && Continuation(c)
    ensures var n := (a - 0xE0) as nat * 0x1000 + (b - 0x80) as nat * 0x40 + (c - 0x80) as nat;
            Scalar(n) && Encoded(n) == [a, b, c]
  {
    var top := (a - 0xE0) as nat * 0x40 + (b - 0x80) as nat;
    DigitsOf64((a - 0xE0) as nat, (b - 0x80) as nat);
    DigitsOf64(top, (c - 0x80) as nat);
    ThousandthIsTwice(top * 0x40 + (c - 0x80) as nat);
  }

  lemma FourBytes(a: Byte, b: Byte, c: Byte, d: Byte)
    requires Utf8Lead4(a, b) && Continuation(c) && Continuation(d)
    ensures var n := (a - 0xF0) as nat * 0x4_0000 + (b - 0x80) as nat * 0x1000 + (c - 0x80) as nat * 0x40
                     + (d - 0x80) as nat;
            Scalar(n) && Encoded(n) == [a, b, c, d]
  {
    var top := (a - 0xF0) as nat * 0x40 + (b - 0x80) as nat;
    var next := top * 0x40 + (c - 0x80) as nat;
    var n := next * 0x40 + (d - 0x80) as nat;
    DigitsOf64((a - 0xF0) as nat, (b - 0x80) as nat);
    DigitsOf64(top, (c - 0x80) as nat);
    DigitsOf64(next, (d - 0x80) as nat);
    ThousandthIsTwice(n);
  }

  lemma ThousandthIsTwice(n: nat)
    ensures n / 0x1000 == n / 0x40 / 0x40 && n / 0x4_0000 == n / 0x40 / 0x40 / 0x40
  {
  }

  /** What opens a text is the encoding of a code point. */
  lemma StepEncodes(s: seq<Byte>)
    requires Utf8Step(s) > 0
    ensures Scalar(Decoded(s)) && Encoded(Decoded(s)) == s[..Utf8Step(s)]
  {
    hide Encoded, Scalar, Utf8Lead3, Utf8Lead4, Continuation;
    match Utf8Step(s)
    case 1 => OneByte(s[0]);
    case 2 => TwoBytes(s[0], s[1]);
    case 3 => ThreeBytes(s[0], s[1], s[2]);
    case _ => FourBytes(s[0], s[1], s[2], s[3]);
  }

  lemma OneByte(a: Byte)
    requires a <= 0x7F
    ensures Scalar(a as nat) && Encoded(a as nat) == [a]
  {
  }

  /** And every encoding opens a text that begins with it, as far as it goes. */
  lemma EncodedSteps(c: nat, rest: seq<Byte>)
    requires Scalar(c)
    ensures Utf8Step(Encoded(c) + rest) == |Encoded(c)|
  {
    hide Utf8Lead3, Utf8Lead4, Continuation;
    var s := Encoded(c) + rest;
    if 0x800 <= c < 0x1_0000 {
      ThreeLead(c);
      assert s[0] == Encoded(c)[0] && s[1] == Encoded(c)[1] && s[2] == Encoded(c)[2];
    } else if c >= 0x1_0000 {
      FourLead(c);
      assert s[0] == Encoded(c)[0] && s[1] == Encoded(c)[1] && s[2] == Encoded(c)[2] && s[3] == Encoded(c)[3];
    } else if c >= 0x80 {
      TailContinues(c);
      assert s[0] == Encoded(c)[0] && s[1] == Encoded(c)[1];
    } else {
      assert s[0] == Encoded(c)[0];
    }
  }

  lemma TailContinues(c: nat)
    ensures Continuation(Tail(c))
  {
  }

  lemma ThreeLead(c: nat)
    requires Scalar(c) && 0x800 <= c < 0x1_0000
    ensures var e := Encoded(c); e[0] > 0xDF && Utf8Lead3(e[0], e[1]) && Continuation(e[2])
  {
  }

  lemma FourLead(c: nat)
    requires Scalar(c) && 0x1_0000 <= c
    ensures var e := Encoded(c);
            && e[0] > 0xEF && !Utf8Lead3(e[0], e[1]) && Utf8Lead4(e[0], e[1])
            && Continuation(e[2]) && Continuation(e[3])
  {
  }

  lemma {:induction false} TextIsEncoded(s: seq<Byte>) returns (cs: seq<nat>)
    requires ValidUtf8(s)
    ensures Scalars(cs) && s == EncodedAll(cs)
    decreases |s|
  {
    hide Utf8Step, Encoded;
    if s == [] {
      cs := [];
    } else {
      var n := Utf8Step(s);
      StepEncodes(s);
      var rest := TextIsEncoded(s[n..]);
      cs := [Decoded(s)] + rest;
      assert cs[1..] == rest && s == s[..n] + s[n..];
    }
  }

  lemma {:induction false} EncodedIsText(cs: seq<nat>)
    requires Scalars(cs)
    ensures ValidUtf8(EncodedAll(cs))
  {
    hide Utf8Step, Encoded;
    if cs != [] {
      var first, rest := Encoded(cs[0]), EncodedAll(cs[1..]);
      EncodedIsText(cs[1..]);
      EncodedSteps(cs[0], rest);
      assert (first + rest)[|first|..] == rest;
    }
  }

  /** Bytes are text exactly when they encode some code points. */
  lemma {:induction false} TextIffEncoded(s: seq<Byte>)
    ensures ValidUtf8(s) <==> exists cs :: Scalars(cs) && s == EncodedAll(cs)
  {
    hide EncodedAll, ValidUtf8;
    if ValidUtf8(s) {
      var cs := TextIsEncoded(s);
    }
    if cs :| Scalars(cs) && s == EncodedAll(cs) {
      EncodedIsText(cs);
    }
  }
}
