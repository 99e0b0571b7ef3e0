/** The NMEA 0183 framer of `core/src/gps.rs`, one byte at a time, and what it says of a
    whole stream. */
module GpsLexer {
  import opened Bytes
  import opened Numbers
  import opened Results

  const MAX_SENTENCE := 82
  const START: Byte := 0x24
  const STAR: Byte := 0x2A
  const CR: Byte := 0x0D
  const LF: Byte := 0x0A

  datatype Malformed = Checksum | NoChecksum | TooLong | Garbage | Field

  datatype Step = Pending | Sentence | Bad(why: Malformed)

  predicate Printable(b: Byte) { 0x20 <= b <= 0x7E }

  predicate EndsLine(b: Byte) { b == CR || b == LF }

  /** A hexadecimal digit's value, either case. */
  function Digit(b: Byte): (d: Option<Byte>)
    ensures d.Some? ==> d.value < 16
  {
    if 0x30 <= b <= 0x39 then Some(b - 0x30)
    else if 0x41 <= b <= 0x46 then Some(b - 0x37)
    else if 0x61 <= b <= 0x66 then Some(b - 0x57)
    else None
  }

  /** `hex_byte`: exactly two hexadecimal digits. */
  function HexByte(s: seq<Byte>): Option<Byte> {
    if |s| != 2 || Digit(s[0]).None? || Digit(s[1]).None? then None
    else Some(Digit(s[0]).value * 16 + Digit(s[1]).value)
  }

  /** The character for a digit, as a byte. */
  function Upper(d: nat): Byte
    requires d < 16
  {
    "0123456789ABCDEF"[d] as int as Byte
  }

  function Lower(d: nat): Byte
    requires d < 16
  {
    "0123456789abcdef"[d] as int as Byte
  }

  predicate SpellsDigit(c: Byte, d: nat)
    requires d < 16
  {
    c == Upper(d) || c == Lower(d)
  }

  /** Two characters that write a byte in hexadecimal, the sixteens first, each in either case. */
  predicate WritesHex(s: seq<Byte>, n: Byte) {
    |s| == 2 && SpellsDigit(s[0], n as nat / 16) && SpellsDigit(s[1], n as nat % 16)
  }

  /** Bit by bit, the lowest first. */
  function XorBits(a: nat, b: nat, bits: nat): (n: nat)
    ensures n < Pow2(bits)
  {
    if bits == 0 then 0 else (a + b) % 2 + 2 * XorBits(a / 2, b / 2, bits - 1)
  }

  /** The exclusive or of two bytes. */
  function Xor(a: Byte, b: Byte): Byte {
    assert Pow2(8) == 0x100;
    XorBits(a as nat, b as nat, 8) as Byte
  }

  /** The exclusive or of all the bytes, from the first. */
  function XorAll(s: seq<Byte>): Byte {
    if s == [] then 0 else Xor(XorAll(s[..|s| - 1]), s[|s| - 1])
  }

  // ------------------------------------------------- the stream, said as a whole

  /** The bytes since the last `$`. */
  function SinceStart(h: seq<Byte>): Option<seq<Byte>> {
    if h == [] then None
    else
      var b := h[|h| - 1];
      if b == START then Some([])
      else
        match SinceStart(h[..|h| - 1])
        case None => None
        case Some(t) => Some(t + [b])
  }

  /** The line being collected: everything since the last `$`, while that is printable and
      no longer than a sentence may be. */
  function Line(h: seq<Byte>): Option<seq<Byte>> {
    match SinceStart(h)
    case Some(t) => if |t| <= MAX_SENTENCE && forall b | b in t :: Printable(b) then Some(t) else None
    case None => None
  }

  /** A line of the form `body*hh`, `hh` being the exclusive or of the body. */
  predicate IsChecked(line: seq<Byte>, body: seq<Byte>) {
    |line| == |body| + 3 && line[..|body|] == body && line[|body|] == STAR
    && WritesHex(line[|body| + 1..], XorAll(body))
  }

  function Judged(line: seq<Byte>): Step {
    var n := |line| - 3;
    if n < 0 || line[n] != STAR || HexByte(line[n + 1..]).None? then Bad(NoChecksum)
    else if IsChecked(line, line[..n]) then Sentence
    else Bad(Checksum)
  }

  /** What a byte after the stream `h` comes to. */
  function Verdict(h: seq<Byte>, b: Byte): Step {
    match Line(h)
    case None => Pending
    case Some(line) =>
      if b == START then (if line != [] then Bad(NoChecksum) else Pending)
      else if EndsLine(b) then (if line != [] then Judged(line) else Pending)
      else if Printable(b) then (if |line| == MAX_SENTENCE then Bad(TooLong) else Pending)
      else if line != [] then Bad(Garbage)
      else Pending
  }

  // ---------------------------------------------------- what the buffer still holds

  function Blank(n: nat): (s: seq<Byte>)
    ensures |s| == n
  {
    if n == 0 then [] else Blank(n - 1) + [0]
  }

  /** The bytes left in the buffer by a stream: each line is written over the one before. */
  function Stored(h: seq<Byte>): (s: seq<Byte>)
    ensures |s| == MAX_SENTENCE
  {
    if h == [] then Blank(MAX_SENTENCE)
    else
      var before, b := h[..|h| - 1], h[|h| - 1];
      var line := Line(before);
      if line.Some? && |line.value| < MAX_SENTENCE && Printable(b) && b != START
      then Stored(before)[|line.value| := b]
      else Stored(before)
  }

  /** The length of the last sentence's body. */
  function BodyLength(h: seq<Byte>): (n: nat)
    ensures n <= MAX_SENTENCE
  {
    if h == [] then 0
    else
      var before := h[..|h| - 1];
      if Verdict(before, h[|h| - 1]) == Sentence then |Line(before).value| - 3 else BodyLength(before)
  }

  /** What `sentence` gives after a stream. */
  function Held(h: seq<Byte>): seq<Byte> { Stored(h)[..BodyLength(h)] }

  // ------------------------------------------------------------------ the framer

  class Lexer {
    const buf: array<Byte>
    var len: nat
    var open: bool
    var body: nat

    /** Everything pushed so far. */
    ghost var heard: seq<Byte>

    ghost predicate Valid()
      reads this, buf
    {
      && buf.Length == MAX_SENTENCE
      && len <= MAX_SENTENCE
      && body <= MAX_SENTENCE
      && open == Line(heard).Some?
      && (open ==> buf[..len] == Line(heard).value)
      && buf[..] == Stored(heard)
      && body == BodyLength(heard)
    }

    constructor ()
      ensures Valid() && fresh(buf) && heard == []
    {
      buf := new Byte[MAX_SENTENCE](_ => 0);
      len, open, body, heard := 0, false, 0, [];
      new;
      BlankIsZero(MAX_SENTENCE);
      assert buf[..] == Blank(MAX_SENTENCE);
    }

    method Push(byte: Byte) returns (step: Step)
      requires Valid()
      modifies this, buf
      ensures Valid() && heard == old(heard) + [byte]
      ensures step == Verdict(old(heard), byte)
      ensures step == Sentence ==> IsChecked(Line(old(heard)).value, buf[..body])
    {
      hide Judged, IsChecked, Stored, BodyLength;
      LineExtends(heard, byte);
      HeldExtends(heard, byte);
      heard := heard + [byte];
      if byte == START {
        var lost := open && len > 0;
        open := true;
        len := 0;
        step := if lost then Bad(NoChecksum) else Pending;
      } else if byte == CR || byte == LF {
        if !open {
          return Pending;
        }
        open := false;
        if len == 0 {
          return Pending;
        }
        step := Check();
      } else if 0x20 <= byte <= 0x7E {
        if !open {
          return Pending;
        }
        if len == MAX_SENTENCE {
          open := false;
          len := 0;
          return Bad(TooLong);
        }
        buf[len] := byte;
        len := len + 1;
        step := Pending;
      } else {
        var lost := open && len > 0;
        open := false;
        len := 0;
        step := if lost then Bad(Garbage) else Pending;
      }
    }

    method Check() returns (step: Step)
      requires buf.Length == MAX_SENTENCE && 0 < len <= MAX_SENTENCE
      requires body <= MAX_SENTENCE
      modifies this`len, this`body
      ensures len <= MAX_SENTENCE && body <= MAX_SENTENCE
      ensures step == Judged(old(buf[..len]))
      ensures step == Sentence ==> IsChecked(old(buf[..len]), buf[..body]) && body + 3 == old(len)
      ensures step != Sentence ==> body == old(body)
    {
      hide Judged, IsChecked, XorAll, HexByte;
      ghost var line := buf[..len];
      var star: nat := len;
      while star > 0 && buf[star - 1] != STAR
        invariant star <= len && STAR !in line[star..]
      {
        assert line[star - 1..] == [line[star - 1]] + line[star..];
        star := star - 1;
      }
      if star == 0 {
        assert line[0..] == line;
        NoStar(line);
        len := 0;
        return Bad(NoChecksum);
      }
      star := star - 1;
      JudgedAtStar(line, star);
      assert buf[star + 1..len] == line[star + 1..] && buf[..star] == line[..star];
      var given := HexByte(buf[star + 1..len]);
      if given.None? {
        len := 0;
        return Bad(NoChecksum);
      }
      if given.value != XorAll(buf[..star]) {
        len := 0;
        return Bad(Checksum);
      }
      body := star;
      step := Sentence;
    }

    /** What a stream has left to be read: `LastSentenceIsHeld` says when it is its sentence. */
    method SentenceBody() returns (s: seq<Byte>)
      requires Valid()
      ensures s == buf[..body] == Held(heard)
    {
      s := buf[..body];
    }
  }

  lemma DigitIff(c: Byte, d: nat)
    requires d < 16
    ensures Digit(c) == Some(d as Byte) <==> SpellsDigit(c, d)
  {
    assert "0123456789ABCDEF"[d] as int == (if d < 10 then 0x30 else 0x37) + d;
    assert "0123456789abcdef"[d] as int == (if d < 10 then 0x30 else 0x57) + d;
  }

  lemma TwoDigitsMake(high: nat, low: nat, n: nat)
    requires high < 16 && low < 16
    ensures 16 * high + low == n <==> high == n / 16 && low == n % 16
  {
  }

  /** Two characters are read as a byte exactly when they write it. */
  lemma HexByteIff(s: seq<Byte>, n: Byte)
    ensures HexByte(s) == Some(n) <==> WritesHex(s, n)
  {
    hide Digit, SpellsDigit;
    if |s| == 2 {
      DigitIff(s[0], n as nat / 16);
      DigitIff(s[1], n as nat % 16);
      if Digit(s[0]).Some? && Digit(s[1]).Some? {
        TwoDigitsMake(Digit(s[0]).value as nat, Digit(s[1]).value as nat, n as nat);
      }
    }
  }

  lemma {:induction false} BlankIsZero(n: nat)
    ensures forall i | 0 <= i < n :: Blank(n)[i] == 0
  {
    if n > 0 {
      BlankIsZero(n - 1);
    }
  }

  lemma HeldExtends(h: seq<Byte>, b: Byte)
    ensures var line := Line(h);
            Stored(h + [b])
            == if line.Some? && |line.value| < MAX_SENTENCE && Printable(b) && b != START
               then Stored(h)[|line.value| := b] else Stored(h)
    ensures BodyLength(h + [b]) == if Verdict(h, b) == Sentence then |Line(h).value| - 3 else BodyLength(h)
  {
    assert (h + [b])[..|h|] == h;
  }

  lemma NoStar(line: seq<Byte>)
    requires STAR !in line
    ensures Judged(line) == Bad(NoChecksum)
  {
    hide XorAll;
  }

  /** The last star is where the body ends, since a star is no hexadecimal digit. */
  lemma JudgedAtStar(line: seq<Byte>, star: nat)
    requires star < |line| && line[star] == STAR && STAR !in line[star + 1..]
    ensures Judged(line) ==
            if HexByte(line[star + 1..]).None? then Bad(NoChecksum)
            else if HexByte(line[star + 1..]).value != XorAll(line[..star]) then Bad(Checksum)
            else Sentence
    ensures Judged(line) == Sentence ==> IsChecked(line, line[..star]) && star + 3 == |line|
  {
    hide XorAll, WritesHex, Digit;
    var n := |line| - 3;
    HexByteIff(line[star + 1..], XorAll(line[..star]));
    if 0 <= n && star < n {
      assert line[n] == line[star + 1..][n - star - 1];
    }
    if 0 <= n && n < star {
      assert line[star] == line[n + 1..][star - n - 1];
      StarIsNoDigit();
    }
  }

  lemma StarIsNoDigit()
    ensures Digit(STAR).None?
  {
  }

  lemma LineExtends(h: seq<Byte>, b: Byte)
    ensures var line, next := Line(h), Line(h + [b]);
            if b == START then next == Some([])
            else if line.Some? && Printable(b) && |line.value| < MAX_SENTENCE then next == Some(line.value + [b])
            else next == None
  {
    assert (h + [b])[..|h|] == h;
    if b != START && SinceStart(h).Some? {
      var t := SinceStart(h).value;
      var more := t + [b];
      assert more[|t|] == b;
      assert forall c | c in t :: c in more;
    }
  }

  // ------------------------------------------------------------ what the spec says

  lemma {:induction false} SinceStartSplits(h: seq<Byte>, start: seq<Byte>, t: seq<Byte>)
    requires h == start + [START] + t && START !in t
    ensures SinceStart(h) == Some(t)
  {
    if t == [] {
      assert h[|h| - 1] == START;
    } else {
      var u := t[..|t| - 1];
      assert h[..|h| - 1] == start + [START] + u && h[|h| - 1] == t[|t| - 1];
      SinceStartSplits(h[..|h| - 1], start, u);
      assert u + [t[|t| - 1]] == t;
    }
  }

  lemma {:induction false} SinceStartFinds(h: seq<Byte>) returns (start: seq<Byte>)
    requires SinceStart(h).Some?
    ensures h == start + [START] + SinceStart(h).value && START !in SinceStart(h).value
  {
    var before, b := h[..|h| - 1], h[|h| - 1];
    assert h == before + [b];
    if b == START {
      start := before;
    } else {
      start := SinceStartFinds(before);
    }
  }

  /** What may stand between `$` and `*`: from space to tilde, and no `$`, 79 at most. */
  predicate IsBody(body: seq<Byte>) { |body| <= 79 && forall b | b in body :: 0x20 <= b <= 0x7E && b != 0x24 }

  /** `before`, `$`, a body, `*` and its checksum. */
  predicate EndsWithSentence(h: seq<Byte>, before: seq<Byte>, body: seq<Byte>, digits: seq<Byte>) {
    && h == before + [START] + (body + [STAR] + digits)
    && IsBody(body) && WritesHex(digits, XorAll(body))
  }

  lemma SentenceLine(body: seq<Byte>, digits: seq<Byte>)
    requires IsBody(body) && WritesHex(digits, XorAll(body))
    ensures var line := body + [STAR] + digits;
            |line| <= MAX_SENTENCE && IsChecked(line, body) && Judged(line) == Sentence
            && (forall b | b in line :: Printable(b) && b != START)
  {
    var line := body + [STAR] + digits;
    hide XorAll;
    assert digits == [digits[0], digits[1]];
    assert line[..|body|] == body && line[|body| + 1..] == digits && line[|body|] == STAR;
    forall b | b in line ensures Printable(b) && b != START {
      if b !in body && b != STAR {
        assert b == digits[0] || b == digits[1];
      }
    }
  }

  /** The framer announces a sentence at a byte exactly when that byte ends a line, and
      what stands before it is a `$` and a well-formed, rightly summed sentence. */
  lemma {:induction false} SentenceIff(h: seq<Byte>, b: Byte)
    ensures Verdict(h, b) == Sentence <==>
            (b == 0x0D || b == 0x0A) && exists before, body, digits :: EndsWithSentence(h, before, body, digits)
  {
    hide XorAll;
    if Verdict(h, b) == Sentence {
      var line := Line(h).value;
      var n := |line| - 3;
      var before := SinceStartFinds(h);
      assert line == line[..n] + [STAR] + line[n + 1..];
      assert forall c | c in line[..n] :: c in line;
      assert EndsWithSentence(h, before, line[..n], line[n + 1..]);
    }
    if before, body, digits :| EndsWithSentence(h, before, body, digits) {
      SentenceLine(body, digits);
      SinceStartSplits(h, before, body + [STAR] + digits);
    }
  }

  /** The line is a body, `*` and the two digits of `n`. */
  predicate Sums(line: seq<Byte>, n: Byte) {
    |line| >= 3 && line[|line| - 3] == 0x2A && WritesHex(line[|line| - 2..], n)
  }

  /** Why a line is dropped: cut off by the next, or without two digits behind a star at its end;
      summed, and wrongly; over 82 bytes; or broken by a byte that is no text. A line not begun
      is none. */
  lemma BadSays(h: seq<Byte>, b: Byte)
    ensures var v, line := Verdict(h, b), Line(h);
            var begun := line.Some? && line.value != [];
            var ends, text := b == 0x0D || b == 0x0A, 0x20 <= b <= 0x7E && b != 0x24;
            && (v == Bad(NoChecksum) <==> begun && (b == 0x24 || (ends && forall n :: !Sums(line.value, n))))
            && (v == Bad(Checksum) <==>
                  begun && ends && exists n :: Sums(line.value, n) && n != XorAll(line.value[..|line.value| - 3]))
            && (v == Bad(TooLong) <==> begun && text && |line.value| == 82)
            && (v == Bad(Garbage) <==> begun && !ends && !text && b != 0x24)
            && v != Bad(Field)
  {
    hide XorAll, WritesHex, HexByte, SinceStart;
    if Line(h).Some? && |Line(h).value| >= 3 {
      var line := Line(h).value;
      var digits, body := line[|line| - 2..], line[..|line| - 3];
      assert line[|body| + 1..] == digits;
      HexByteOnlyIf(digits);
      HexByteIff(digits, XorAll(body));
      if HexByte(digits).Some? {
        HexByteIff(digits, HexByte(digits).value);
        assert line[|body|] == STAR ==> Sums(line, HexByte(digits).value);
      }
    }
  }

  lemma HexByteOnlyIf(digits: seq<Byte>)
    ensures forall n :: WritesHex(digits, n) ==> HexByte(digits) == Some(n)
  {
    forall n | WritesHex(digits, n) ensures HexByte(digits) == Some(n) {
      HexByteIff(digits, n);
    }
  }

  /** The bodies of the sentences in a stream, in order. */
  function Sentences(h: seq<Byte>): seq<seq<Byte>> {
    if h == [] then []
    else
      var before := h[..|h| - 1];
      if Verdict(before, h[|h| - 1]) == Sentence then
        Sentences(before) + [Line(before).value[..|Line(before).value| - 3]]
      else Sentences(before)
  }

  /** The line being collected is at the front of the buffer. */
  lemma {:induction false} LineIsStored(h: seq<Byte>)
    requires Line(h).Some?
    ensures |Line(h).value| <= MAX_SENTENCE && Stored(h)[..|Line(h).value|] == Line(h).value
  {
    hide Stored;
    var before, b := h[..|h| - 1], h[|h| - 1];
    assert h == before + [b];
    LineExtends(before, b);
    HeldExtends(before, b);
    if b != START {
      LineIsStored(before);
    }
  }

  /** Straight after a sentence is announced, `sentence` gives it. */
  lemma LastSentenceIsHeld(h: seq<Byte>, b: Byte)
    requires Verdict(h, b) == Sentence
    ensures Sentences(h + [b]) == Sentences(h) + [Held(h + [b])]
  {
    hide Stored, BodyLength, IsChecked;
    LineIsStored(h);
    HeldExtends(h, b);
    assert (h + [b])[..|h|] == h;
    var line := Line(h).value;
    assert Stored(h)[..|line|][..|line| - 3] == Stored(h)[..|line| - 3];
  }

  /** A failed check does not empty what can be read back: it is empty exactly when no sentence
      has come yet, or the last was empty. */
  lemma {:induction false} NothingIsHeldIff(h: seq<Byte>)
    ensures Held(h) == [] <==> Sentences(h) == [] || Sentences(h)[|Sentences(h)| - 1] == []
  {
    hide Verdict, Line, Stored;
    HeldLength(h);
  }

  lemma {:induction false} HeldLength(h: seq<Byte>)
    ensures BodyLength(h) == if Sentences(h) == [] then 0 else |Sentences(h)[|Sentences(h)| - 1]|
  {
    hide IsChecked;
    if h != [] {
      HeldLength(h[..|h| - 1]);
    }
  }

  /** After a sentence and a line of one character, which fails its check, what is read back is
      neither: the character, and the rest of the sentence. */
  lemma AStaleBodyIsReadBack(h: seq<Byte>, b: Byte, c: Byte)
    requires Verdict(h, b) == Sentence && Held(h + [b]) != [] && Printable(c) && c != START
    ensures var line := h + [b] + [START] + [c];
            Verdict(line, LF) == Bad(NoChecksum) && Held(line + [LF]) == [c] + Held(h + [b])[1..]
  {
    hide Stored, BodyLength, SinceStart;
    var sentence, started := h + [b], h + [b] + [START];
    var line := started + [c];
    HeldExtends(sentence, START);
    LineExtends(sentence, START);
    HeldExtends(started, c);
    LineExtends(started, c);
    HeldExtends(line, LF);
    assert Verdict(sentence, START) != Sentence;
  }

  lemma PrintableEndsNothing(h: seq<Byte>, b: Byte)
    requires Printable(b)
    ensures Verdict(h, b) != Sentence
  {
    hide Line;
  }

  lemma {:induction false} NothingMidLine(h: seq<Byte>, line: seq<Byte>)
    requires forall b | b in line :: Printable(b)
    ensures Sentences(h + line) == Sentences(h)
  {
    hide Verdict, Line;
    if line == [] {
      assert h + line == h;
    } else {
      var all, init := h + line, line[..|line| - 1];
      PrintableEndsNothing(h + init, line[|line| - 1]);
      assert all[..|all| - 1] == h + init && all[|all| - 1] == line[|line| - 1];
      NothingMidLine(h, init);
    }
  }

  /** Whatever came before it -- noise, half a line, another sentence -- a well-formed
      line is received, whole and once. */
  lemma {:induction false} LineIsReceived(before: seq<Byte>, body: seq<Byte>, digits: seq<Byte>, end: Byte)
    requires IsBody(body) && WritesHex(digits, XorAll(body)) && (end == 0x0D || end == 0x0A)
    ensures Sentences(before + [START] + (body + [STAR] + digits) + [end]) == Sentences(before) + [body]
  {
    hide XorAll;
    var line := body + [STAR] + digits;
    SentenceLine(body, digits);
    var h := before + [START] + line;
    assert h == before + ([START] + line);
    NothingMidLine(before, [START] + line);
    SinceStartSplits(h, before, line);
    assert (h + [end])[..|h|] == h && (h + [end])[|h|] == end;
    assert line[..|line| - 3] == body;
  }

  /** How many lines were begun: a `$` with something after it. */
  function Begun(h: seq<Byte>): nat {
    if h == [] then 0
    else
      var before := h[..|h| - 1];
      Begun(before) + if Line(before) == Some([]) && Printable(h[|h| - 1]) && h[|h| - 1] != START then 1 else 0
  }

  function Dropped(h: seq<Byte>): nat {
    if h == [] then 0
    else Dropped(h[..|h| - 1]) + if Verdict(h[..|h| - 1], h[|h| - 1]).Bad? then 1 else 0
  }

  /** Every line begun is received, dropped with a reason, or still being collected. */
  lemma {:induction false} EveryLineIsAccountedFor(h: seq<Byte>)
    ensures Begun(h) == |Sentences(h)| + Dropped(h) + (if Line(h).Some? && Line(h).value != [] then 1 else 0)
  {
    if h != [] {
      var before, b := h[..|h| - 1], h[|h| - 1];
      assert h == before + [b];
      EveryLineIsAccountedFor(before);
      LineExtends(before, b);
      hide Line;
    }
  }

  // --------------------------------------------------------------- what the sum catches

  lemma LowBit(low: nat, rest: nat)
    requires low < 2
    ensures (low + 2 * rest) % 2 == low && (low + 2 * rest) / 2 == rest
  {
  }

  lemma {:induction false} BitsAssociate(a: nat, b: nat, c: nat, bits: nat)
    ensures XorBits(XorBits(a, b, bits), c, bits) == XorBits(a, XorBits(b, c, bits), bits)
  {
    hide XorBits;
    if bits > 0 {
      BitsAssociate(a / 2, b / 2, c / 2, bits - 1);
      var ab, bc := XorBits(a, b, bits), XorBits(b, c, bits);
      OneMoreBit(a, b, bits);
      OneMoreBit(b, c, bits);
      OneMoreBit(ab, c, bits);
      OneMoreBit(a, bc, bits);
      LowBit((a + b) % 2, XorBits(a / 2, b / 2, bits - 1));
      LowBit((b + c) % 2, XorBits(b / 2, c / 2, bits - 1));
      ParityAssociates(a, b, c, ab, bc);
    } else {
      NoBits(a, b, c);
    }
  }

  lemma NoBits(a: nat, b: nat, c: nat)
    ensures XorBits(XorBits(a, b, 0), c, 0) == 0 == XorBits(a, XorBits(b, c, 0), 0)
  {
  }

  lemma OneMoreBit(a: nat, b: nat, bits: nat)
    requires bits > 0
    ensures XorBits(a, b, bits) == (a + b) % 2 + 2 * XorBits(a / 2, b / 2, bits - 1)
  {
  }

  lemma ParityAssociates(a: nat, b: nat, c: nat, ab: nat, bc: nat)
    requires ab % 2 == (a + b) % 2 && bc % 2 == (b + c) % 2
    ensures (ab + c) % 2 == (a + bc) % 2
  {
  }

  lemma {:induction false} BitsWithNought(a: nat, bits: nat)
    requires a < Pow2(bits)
    ensures XorBits(a, 0, bits) == a && XorBits(0, a, bits) == a
  {
    if bits > 0 {
      BitsWithNought(a / 2, bits - 1);
    }
  }

  lemma {:induction false} BitsWithThemselves(a: nat, bits: nat)
    ensures XorBits(a, a, bits) == 0
  {
    if bits > 0 {
      BitsWithThemselves(a / 2, bits - 1);
    }
  }

  lemma XorIsAGroup(a: Byte, b: Byte, c: Byte)
    ensures Xor(a, 0) == a == Xor(0, a) && Xor(a, a) == 0
    ensures Xor(Xor(a, b), c) == Xor(a, Xor(b, c))
  {
    assert Pow2(8) == 0x100;
    hide XorBits, Pow2;
    BitsWithNought(a as nat, 8);
    BitsWithThemselves(a as nat, 8);
    BitsAssociate(a as nat, b as nat, c as nat, 8);
  }

  lemma {:induction false} XorAllConcat(s: seq<Byte>, t: seq<Byte>)
    ensures XorAll(s + t) == Xor(XorAll(s), XorAll(t))
  {
    hide Xor;
    if t == [] {
      XorIsAGroup(XorAll(s), 0, 0);
      assert s + t == s;
    } else {
      var most, last := t[..|t| - 1], t[|t| - 1];
      XorAllConcat(s, most);
      XorIsAGroup(XorAll(s), XorAll(most), last);
      assert (s + t)[..|s + t| - 1] == s + most;
    }
  }

  /** The sum of one byte is that byte; of two runs, the sums' exclusive or; and a byte and
      itself cancel. */
  lemma SumOfOne(b: Byte)
    ensures XorAll([]) == 0 && XorAll([b]) == b && XorAll([b, b]) == 0
  {
    XorIsAGroup(b, 0, 0);
    assert [b][..0] == [] && [b, b][..1] == [b];
  }

  /** One byte changed anywhere changes the sum, so the line is refused. */
  lemma {:induction false} ADamagedByteIsCaught(before: seq<Byte>, a: Byte, b: Byte, after: seq<Byte>)
    requires a != b
    ensures XorAll(before + [a] + after) != XorAll(before + [b] + after)
  {
    hide Xor, XorAll;
    SumOfOne(a);
    SumOfOne(b);
    XorAllConcat(before, [a]);
    XorAllConcat(before, [b]);
    XorAllConcat(before + [a], after);
    XorAllConcat(before + [b], after);
    if XorAll(before + [a] + after) == XorAll(before + [b] + after) {
      Cancels(XorAll(before), a, b, XorAll(after));
    }
  }

  lemma Cancels(x: Byte, a: Byte, b: Byte, y: Byte)
    requires Xor(Xor(x, a), y) == Xor(Xor(x, b), y)
    ensures a == b
  {
    hide Xor;
    XorIsAGroup(Xor(x, a), y, y);
    XorIsAGroup(Xor(x, b), y, y);
    XorIsAGroup(y, y, y);
    XorIsAGroup(x, x, a);
    XorIsAGroup(x, x, b);
    XorIsAGroup(a, a, a);
    XorIsAGroup(b, b, b);
  }
}
