/** Sentences and the receiver of `core/src/gps.rs`: `parse`, `Receiver::feed` and `take`, the
    in-view table over a whole stream, and the total that `position` makes of it. */
module GpsReceiver {
  import opened Bytes
  import opened Results
  import opened GpsLexer
  import opened GpsClock
  import opened GpsFields

  const COMMA: Byte := 0x2C
  const LETTER_P: Byte := 0x50
  const GGA: seq<Byte> := [0x47, 0x47, 0x41]
  const RMC: seq<Byte> := [0x52, 0x4D, 0x43]
  const GSV: seq<Byte> := [0x47, 0x53, 0x56]
  const METRES: seq<Byte> := [0x4D]
  const ACTIVE: seq<Byte> := [0x41]
  const VOID: seq<Byte> := [0x56]

  const TALKERS := 5

  /** A `u8`. */
  type Count = n: nat | n <= 255

  datatype Fix = Fix(latUdeg: int, lonUdeg: int, altDm: Option<int>)

  datatype GgaReport = GgaReport(time: Option<Time>, quality: nat, satsUsed: nat, fix: Option<Fix>)

  datatype RmcReport = RmcReport(time: Option<Time>, date: Option<Date>, valid: bool, fix: Option<Fix>)

  datatype GsvReport = GsvReport(talker: seq<Byte>, inView: Count)

  datatype Report = Gga(gga: GgaReport) | Rmc(rmc: RmcReport) | Gsv(gsv: GsvReport) | Other

  // ------------------------------------------------------------------- the fields

  function Split(s: seq<Byte>, at: Byte): (fields: seq<seq<Byte>>)
    ensures fields != []
    decreases |s|
  {
    var i := Find(s, at);
    if i == |s| then [s] else [s[..i]] + Split(s[i + 1..], at)
  }

  function TwoDigits(s: seq<Byte>, at: nat): nat { DigitAt(s, at) * 10 + DigitAt(s, at + 1) }

  function ReadTime(s: seq<Byte>): Result<Option<Time>, Malformed> {
    if s == [] then Ok(None) else
    var whole := BeforeDot(s);
    if |whole| != 6 || !AllDigits(whole) then Err(Field) else
    var t := Time(TwoDigits(whole, 0), TwoDigits(whole, 2), TwoDigits(whole, 4));
    if t.hour > 23 || t.minute > 59 || t.second > 60 then Err(Field) else Ok(Some(t))
  }

  function ReadDate(s: seq<Byte>): Result<Option<Date>, Malformed> {
    if s == [] then Ok(None) else
    if |s| != 6 || !AllDigits(s) then Err(Field) else
    var d := Date(2000 + TwoDigits(s, 4), TwoDigits(s, 2), TwoDigits(s, 0));
    if d.day == 0 || d.day > 31 || d.month == 0 || d.month > 12 then Err(Field) else Ok(Some(d))
  }

  /** A date and a time that are read have their seconds, which name them again exactly on
      the calendar and below a sixtieth second. */
  lemma WhatIsReadHasSeconds(date: seq<Byte>, time: seq<Byte>, d: Date, t: Time)
    requires ReadDate(date) == Ok(Some(d)) && ReadTime(time) == Ok(Some(t))
    ensures UnixSeconds(d, t).Some? && UnixSeconds(d, t).value >= 0
    ensures Civil(UnixSeconds(d, t).value) == (d, t) <==> OnCalendar(d) && t.second < 60
  {
    hide DayNumber, OnCalendar, Civil;
    AcceptedReadingNamesItselfIff(d, t);
  }

  /** `small(..)?.unwrap_or(0)`: empty is none, and none is zero. */
  function ReadCount(s: seq<Byte>): Result<Count, Malformed> {
    if s == [] then Ok(0) else
    var digits := if s[0] == PLUS then s[1..] else s;
    if digits == [] || !AllDigits(digits) || Decimal(digits) > 255 then Err(Field) else Ok(Decimal(digits))
  }

  /** Digits that spell a count, behind a plus sign or not. */
  predicate Writes(s: seq<Byte>, digits: seq<Byte>, n: nat) {
    digits != [] && AllDigits(digits) && Decimal(digits) == n && (s == digits || s == [PLUS] + digits)
  }

  /** A field is read as a count exactly when it writes that count, a `u8`, or, for none, is
      empty; and it is refused when it writes no such number. */
  lemma CountIsWhatIsWritten(s: seq<Byte>, n: nat)
    ensures n <= 255 ==>
            (ReadCount(s) == Ok(n) <==> (s == [] && n == 0) || exists digits :: Writes(s, digits, n))
    ensures ReadCount(s).Err? <==> s != [] && forall digits, m | Writes(s, digits, m) :: m > 255
  {
    hide Decimal;
    if s != [] {
      var digits := if s[0] == PLUS then s[1..] else s;
      assert [s[0]] + s[1..] == s;
      assert digits != [] && AllDigits(digits) ==> Writes(s, digits, Decimal(digits));
      forall d, m | Writes(s, d, m) ensures d == digits {
        SignIsNoDigit(s, d);
      }
    }
  }

  lemma SignIsNoDigit(s: seq<Byte>, digits: seq<Byte>)
    requires digits != [] && AllDigits(digits) && (s == digits || s == [PLUS] + digits)
    ensures s != [] && digits == if s[0] == PLUS then s[1..] else s
  {
    assert digits[0] in digits;
    assert ([PLUS] + digits)[1..] == digits;
  }

  function ReadAltitude(alt: seq<Byte>, unit: seq<Byte>): Result<Option<int>, Malformed> {
    if alt == [] then Ok(None)
    else if unit != METRES then Err(Field)
    else
      var dm :- Fixed(alt, 1);
      if -I32_MAX - 1 <= dm <= I32_MAX then Ok(Some(dm)) else Err(Field)
  }

  predicate FitsI32(n: int) { -I32_MAX - 1 <= n <= I32_MAX }

  /** What an overlong whole part leaves of an altitude: the digit after its point. */
  function TenthsAlone(alt: seq<Byte>): int {
    var tenths: int := DigitAt(AfterDot(Unsigned(alt)), 0);
    if IsNegative(alt) then -tenths else tenths
  }

  /** Of every altitude in metres: what is no decimal is refused, one whose whole part is
      beyond an `i64` is read as its tenths alone, and of the rest exactly those an `i32` of
      decimetres holds are accepted, as written. */
  lemma AltitudeIsRead(alt: seq<Byte>)
    requires alt != []
    ensures ReadAltitude(alt, METRES)
         == if !IsDecimal(alt) then Err(Field)
            else if Decimal(BeforeDot(Unsigned(alt))) > I64_MAX then Ok(Some(TenthsAlone(alt)))
            else if FitsI32(Spelled(alt, 1)) then Ok(Some(Spelled(alt, 1)))
            else Err(Field)
  {
    hide Decimal, Fixed, IsDecimal, BeforeDot, AfterDot, Scaled, ScaleI64, Unsigned, WrapI64, DigitAt;
    if IsDecimal(alt) {
      var w, frac := Decimal(BeforeDot(Unsigned(alt))), AfterDot(Unsigned(alt));
      FixedFromParts(alt, 1);
      if w <= I64_MAX {
        ScaleFits(w, frac, 1);
        OutsideStaysOutside(Scaled(w, frac, 1));
      } else {
        TenthsOfNothing(frac);
        SmallStays(DigitAt(frac, 0));
      }
    } else {
      RefusedIfNoDecimal(alt);
    }
  }

  lemma RefusedIfNoDecimal(alt: seq<Byte>)
    requires !IsDecimal(alt)
    ensures Fixed(alt, 1) == Err(Field)
  {
    hide IsDecimal;
  }

  lemma OutsideStaysOutside(m: nat)
    ensures m <= I64_MAX ==> WrapI64(-(m as int)) == -(m as int)
    ensures I64_MAX < m <= I64_MAX + 2 ==>
            !FitsI32(m - 0x1_0000_0000_0000_0000) && !FitsI32(WrapI64(-(m - 0x1_0000_0000_0000_0000)))
  {
  }

  lemma SmallStays(d: nat)
    requires d < 10
    ensures WrapI64(-(d as int)) == -(d as int)
  {
  }

  lemma TenthsOfNothing(frac: seq<Byte>)
    ensures ScaleI64(0, frac, 1) == Ok(DigitAt(frac, 0))
  {
    assert ScaleI64(0, frac, 0) == Ok(0);
  }

  /** So an altitude is read as written exactly when an `i32` of decimetres holds it. */
  lemma AltitudeIsWhatIsWrittenIff(alt: seq<Byte>)
    requires IsDecimal(alt)
    ensures ReadAltitude(alt, METRES) == Ok(Some(Spelled(alt, 1))) <==> FitsI32(Spelled(alt, 1))
  {
    assert alt != [];
    hide Decimal, IsDecimal, BeforeDot, AfterDot, Scaled, Unsigned, ReadAltitude, DigitAt;
    AltitudeIsRead(alt);
    ScaledGrows(Decimal(BeforeDot(Unsigned(alt))), AfterDot(Unsigned(alt)), 1);
  }

  /** Twenty digits of metres and more, which no `i32` holds, are read as sea level. */
  lemma TwentyDigitsAreSeaLevel(alt: seq<Byte>)
    requires |alt| >= 20 && AllDigits(alt) && alt[0] != 0x30
    ensures ReadAltitude(alt, METRES) == Ok(Some(0)) && Spelled(alt, 1) > I32_MAX
  {
    hide Fixed, Spelled, IsDecimal;
    TwentyDigitsReadAsZero(alt, 1);
  }

  /** For one, a one and nineteen noughts. */
  lemma SeaLevel()
    ensures var alt: seq<Byte> := [0x31] + seq(19, _ => 0x30);
            ReadAltitude(alt, METRES) == Ok(Some(0)) && Spelled(alt, 1) > I32_MAX
  {
    hide ReadAltitude, Spelled;
    TwentyDigitsAreSeaLevel([0x31] + seq(19, _ => 0x30));
  }

  function FixAt(place: Option<(int, int)>, altDm: Option<int>): Option<Fix> {
    if place.None? then None else Some(Fix(place.value.0, place.value.1, altDm))
  }

  /** `gga`; `f` is the fields after the head. */
  function ReadGga(f: seq<seq<Byte>>): Result<GgaReport, Malformed> {
    if |f| < 10 then Err(Field) else
    var time :- ReadTime(f[0]);
    var quality :- ReadCount(f[5]);
    var satsUsed :- ReadCount(f[6]);
    var altDm :- ReadAltitude(f[8], f[9]);
    if quality == 0 then Ok(GgaReport(time, quality, satsUsed, None)) else
    var place :- Coordinates(f[1], f[2], f[3], f[4]);
    Ok(GgaReport(time, quality, satsUsed, FixAt(place, altDm)))
  }

  function ReadRmc(f: seq<seq<Byte>>): Result<RmcReport, Malformed> {
    if |f| < 9 then Err(Field) else
    var time :- ReadTime(f[0]);
    if f[1] != ACTIVE && f[1] != VOID && f[1] != [] then Err(Field) else
    var date :- ReadDate(f[8]);
    if f[1] != ACTIVE then Ok(RmcReport(time, date, false, None)) else
    var place :- Coordinates(f[2], f[3], f[4], f[5]);
    Ok(RmcReport(time, date, true, FixAt(place, None)))
  }

  function ReadGsv(talker: seq<Byte>, f: seq<seq<Byte>>): Result<GsvReport, Malformed> {
    if |f| < 3 then Err(Field) else
    var inView :- ReadCount(f[2]);
    Ok(GsvReport(talker, inView))
  }

  /** `parse`. */
  function Parse(body: seq<Byte>): Result<Report, Malformed> {
    var fields := Split(body, COMMA);
    var head, f := fields[0], fields[1..];
    if |head| != 5 || head[0] == LETTER_P then Ok(Other)
    else if head[2..] == GGA then
      var r :- ReadGga(f);
      Ok(Gga(r))
    else if head[2..] == RMC then
      var r :- ReadRmc(f);
      Ok(Rmc(r))
    else if head[2..] == GSV then
      var r :- ReadGsv(head[..2], f);
      Ok(Gsv(r))
    else Ok(Other)
  }

  // ------------------------------------------------------------------ the receiver

  type Slot = Option<GsvReport>

  datatype Known = Known(
    heardAt: Option<nat>,
    fix: Option<Fix>,
    fixAt: Option<nat>,
    satsUsed: Option<nat>,
    inView: seq<Slot>,
    time: Option<Time>,
    date: Option<Date>,
    sentences: nat,
    malformed: nat)

  const NOTHING_IN_VIEW: seq<Slot> := [None, None, None, None, None]

  const NOTHING := Known(None, None, None, None, NOTHING_IN_VIEW, None, None, 0, 0)

  function OrElse<T>(a: Option<T>, b: Option<T>): Option<T> { if a.Some? then a else b }

  /** The first slot of this talker, or else the first that is free. */
  function SlotOf(inView: seq<Slot>, talker: seq<Byte>): (i: nat)
    ensures i <= |inView|
    ensures i < |inView| && inView[i].Some? ==> inView[i].value.talker == talker
  {
    var i := TalkerSlot(inView, talker);
    if i < |inView| then i else FreeSlot(inView)
  }

  function TalkerSlot(inView: seq<Slot>, talker: seq<Byte>): (i: nat)
    ensures i <= |inView|
    ensures forall k | 0 <= k < i :: !(inView[k].Some? && inView[k].value.talker == talker)
    ensures i < |inView| ==> inView[i].Some? && inView[i].value.talker == talker
  {
    if inView == [] || (inView[0].Some? && inView[0].value.talker == talker) then 0
    else 1 + TalkerSlot(inView[1..], talker)
  }

  function FreeSlot(inView: seq<Slot>): (i: nat)
    ensures i <= |inView|
    ensures forall k | 0 <= k < i :: inView[k].Some?
    ensures i < |inView| ==> inView[i].None?
  {
    if inView == [] || inView[0].None? then 0 else 1 + FreeSlot(inView[1..])
  }

  function TableStep(inView: seq<Slot>, gsv: GsvReport): (r: seq<Slot>)
    ensures |r| == |inView|
  {
    var i := SlotOf(inView, gsv.talker);
    if i < |inView| then inView[i := Some(gsv)] else inView
  }

  function Taken(k: Known, report: Report, now: nat): Known {
    match report
    case Gga(g) =>
      k.(time := OrElse(g.time, k.time),
         satsUsed := Some(g.satsUsed),
         fix := OrElse(g.fix, k.fix),
         fixAt := if g.fix.Some? then Some(now) else k.fixAt)
    case Rmc(r) =>
      k.(time := OrElse(r.time, k.time),
         date := OrElse(r.date, k.date),
         fix := if r.fix.None? then k.fix
                else Some(r.fix.value.(altDm := if k.fix.Some? then k.fix.value.altDm else None)),
         fixAt := if r.fix.Some? then Some(now) else k.fixAt)
    case Gsv(g) => k.(inView := TableStep(k.inView, g))
    case Other => k
  }

  /** What the byte `b` after the stream `h` adds to what is known. */
  function Learned(k: Known, h: seq<Byte>, b: Byte, now: nat): Known {
    match Verdict(h, b)
    case Pending => k
    case Bad(_) => k.(malformed := k.malformed + 1)
    case Sentence =>
      var line := Line(h).value;
      match Parse(line[..|line| - 3])
      case Ok(report) => Taken(k.(sentences := k.sentences + 1, heardAt := Some(now)), report, now)
      case Err(_) => k.(malformed := k.malformed + 1)
  }

  function LearnedAll(k: Known, h: seq<Byte>, bytes: seq<Byte>, now: nat): Known {
    if bytes == [] then k
    else
      var n := |bytes| - 1;
      Learned(LearnedAll(k, h, bytes[..n], now), h + bytes[..n], bytes[n], now)
  }

  class Receiver {
    const lexer: Lexer
    const inView: array<Slot>
    var heardAt: Option<nat>
    var fix: Option<Fix>
    var fixAt: Option<nat>
    var satsUsed: Option<nat>
    var time: Option<Time>
    var date: Option<Date>
    var sentences: nat
    var malformed: nat

    ghost predicate Valid()
      reads this, lexer, lexer.buf
    {
      lexer.Valid() && inView.Length == TALKERS
    }

    /** A receiver that has just been switched on. */
    constructor ()
      ensures Valid() && fresh(lexer) && fresh(lexer.buf) && fresh(inView)
      ensures State() == NOTHING && lexer.heard == []
    {
      lexer := new Lexer();
      inView := new Slot[TALKERS](_ => None);
      heardAt, fix, fixAt, satsUsed, time, date := None, None, None, None, None, None;
      sentences, malformed := 0, 0;
      new;
      assert inView[..] == NOTHING_IN_VIEW;
    }

    function State(): Known
      reads this, inView
    {
      Known(heardAt, fix, fixAt, satsUsed, inView[..], time, date, sentences, malformed)
    }

    method Feed(bytes: seq<Byte>, now: nat)
      requires Valid()
      modifies this, inView, lexer, lexer.buf
      ensures Valid() && lexer.heard == old(lexer.heard) + bytes
      ensures State() == LearnedAll(old(State()), old(lexer.heard), bytes, now)
    {
      hide Verdict, Line, Parse, Taken, Stored, BodyLength, Held, XorAll, HexByte;
      ghost var k, h := State(), lexer.heard;
      for i := 0 to |bytes|
        invariant Valid() && lexer.heard == h + bytes[..i]
        invariant State() == LearnedAll(k, h, bytes[..i], now)
      {
        ghost var before := State();
        LearnedNext(k, h, bytes, i, now);
        var step := lexer.Push(bytes[i]);
        assert State() == before;
        match step {
          case Pending =>
          case Bad(_) => malformed := malformed + 1;
          case Sentence =>
            var body := lexer.SentenceBody();
            match Parse(body) {
              case Ok(report) =>
                sentences := sentences + 1;
                heardAt := Some(now);
                Take(report, now);
              case Err(_) => malformed := malformed + 1;
            }
        }
      }
      assert bytes[..|bytes|] == bytes;
    }

    method Take(report: Report, now: nat)
      requires inView.Length == TALKERS
      modifies this, inView
      ensures State() == Taken(old(State()), report, now)
    {
      match report {
        case Gga(gga) =>
          if gga.time.Some? {
            time := gga.time;
          }
          satsUsed := Some(gga.satsUsed);
          if gga.fix.Some? {
            fix := gga.fix;
            fixAt := Some(now);
          }
        case Rmc(rmc) =>
          if rmc.time.Some? {
            time := rmc.time;
          }
          if rmc.date.Some? {
            date := rmc.date;
          }
          if rmc.fix.Some? {
            var altDm := if fix.Some? then fix.value.altDm else None;
            fix := Some(rmc.fix.value.(altDm := altDm));
            fixAt := Some(now);
          }
        case Gsv(gsv) =>
          var slot := SlotOf(inView[..], gsv.talker);
          if slot < inView.Length {
            inView[slot] := Some(gsv);
          }
        case Other =>
      }
    }
  }

  lemma LearnedNext(k: Known, h: seq<Byte>, bytes: seq<Byte>, i: nat, now: nat)
    requires i < |bytes|
    ensures LearnedAll(k, h, bytes[..i + 1], now)
         == Learned(LearnedAll(k, h, bytes[..i], now), h + bytes[..i], bytes[i], now)
    ensures h + bytes[..i] + [bytes[i]] == h + bytes[..i + 1]
  {
    assert bytes[..i + 1][..i] == bytes[..i];
  }

  // --------------------------------------------------- the in-view table, as a whole

  function PlaceOf(talkers: seq<seq<Byte>>, t: seq<Byte>): (i: nat)
    ensures i <= |talkers|
    ensures i < |talkers| ==> talkers[i] == t
    ensures forall k | 0 <= k < i :: talkers[k] != t
  {
    if talkers == [] || talkers[0] == t then 0 else 1 + PlaceOf(talkers[1..], t)
  }

  /** The talkers that have reported, in the order they first did. */
  function Talkers(reports: seq<GsvReport>): seq<seq<Byte>> {
    if reports == [] then []
    else WithTalker(Talkers(reports[..|reports| - 1]), reports[|reports| - 1].talker)
  }

  function WithTalker(talkers: seq<seq<Byte>>, t: seq<Byte>): seq<seq<Byte>> {
    if PlaceOf(talkers, t) < |talkers| then talkers else talkers + [t]
  }

  /** The last report of a talker. */
  function LatestOf(reports: seq<GsvReport>, talker: seq<Byte>): Option<GsvReport> {
    if reports == [] then None
    else if reports[|reports| - 1].talker == talker then Some(reports[|reports| - 1])
    else LatestOf(reports[..|reports| - 1], talker)
  }

  /** Of each of the first five talkers, its last report; then nothing. */
  function InView(reports: seq<GsvReport>): (slots: seq<Slot>)
    ensures |slots| == TALKERS
    ensures forall k | 0 <= k < TALKERS ::
              slots[k] == if k < |Talkers(reports)| then LatestOf(reports, Talkers(reports)[k]) else None
  {
    FirstSlots(reports, TALKERS)
  }

  function FirstSlots(reports: seq<GsvReport>, n: nat): (slots: seq<Slot>)
    ensures |slots| == n
    ensures forall k | 0 <= k < n ::
              slots[k] == if k < |Talkers(reports)| then LatestOf(reports, Talkers(reports)[k]) else None
  {
    if n == 0 then []
    else
      FirstSlots(reports, n - 1)
      + [if n - 1 < |Talkers(reports)| then LatestOf(reports, Talkers(reports)[n - 1]) else None]
  }

  function RunTable(reports: seq<GsvReport>): (slots: seq<Slot>)
    ensures |slots| == TALKERS
  {
    if reports == [] then NOTHING_IN_VIEW
    else TableStep(RunTable(reports[..|reports| - 1]), reports[|reports| - 1])
  }

  lemma {:induction false} TalkersReport(reports: seq<GsvReport>)
    ensures forall j, k | 0 <= j < k < |Talkers(reports)| :: Talkers(reports)[j] != Talkers(reports)[k]
    ensures forall t :: t in Talkers(reports) <==> LatestOf(reports, t).Some?
    ensures forall t | LatestOf(reports, t).Some? :: LatestOf(reports, t).value.talker == t
  {
    if reports != [] {
      TalkersReport(reports[..|reports| - 1]);
    }
  }

  lemma NobodyInView()
    ensures InView([]) == NOTHING_IN_VIEW
  {
  }

  /** The table holds what each of the first five talkers last said, in a filled prefix. */
  lemma {:induction false} TableIsInView(reports: seq<GsvReport>)
    ensures RunTable(reports) == InView(reports)
  {
    hide InView, TableStep, PlaceOf, SlotOf;
    if reports == [] {
      NobodyInView();
    } else {
      var before, g := reports[..|reports| - 1], reports[|reports| - 1];
      assert reports == before + [g];
      TableIsInView(before);
      SlotIsPlace(before, g.talker);
      StepIsInView(before, g);
    }
  }

  /** A talker's slot is its place among the talkers; a new one's is the next. */
  lemma SlotIsPlace(reports: seq<GsvReport>, t: seq<Byte>)
    ensures var i := PlaceOf(Talkers(reports), t);
            SlotOf(InView(reports), t) == if i < TALKERS then i else TALKERS
  {
    TalkersReport(reports);
    var talkers, slots, i := Talkers(reports), InView(reports), PlaceOf(Talkers(reports), t);
    hide Talkers, LatestOf, SlotOf, PlaceOf;
    assert forall k | 0 <= k < TALKERS :: slots[k].Some? <==> k < |talkers|;
    assert forall k | 0 <= k < TALKERS && k < |talkers| :: slots[k].value.talker == talkers[k];
    SlotFound(slots, t, talkers, i);
  }

  lemma SlotFound(slots: seq<Slot>, t: seq<Byte>, talkers: seq<seq<Byte>>, i: nat)
    requires |slots| == TALKERS
    requires forall k | 0 <= k < TALKERS :: slots[k].Some? <==> k < |talkers|
    requires forall k | 0 <= k < TALKERS && k < |talkers| :: slots[k].value.talker == talkers[k]
    requires forall j, k | 0 <= j < k < |talkers| :: talkers[j] != talkers[k]
    requires i <= |talkers| && (i < |talkers| ==> talkers[i] == t) && (forall k | 0 <= k < i :: talkers[k] != t)
    ensures SlotOf(slots, t) == if i < TALKERS then i else TALKERS
  {
    var j, free := TalkerSlot(slots, t), FreeSlot(slots);
    if j < TALKERS {
      assert slots[j].value.talker == t == talkers[j];
    }
    if i < |talkers| && i < TALKERS {
      assert slots[i].Some? && slots[i].value.talker == t;
      assert j <= i;
    } else {
      assert j == TALKERS;
      assert free < TALKERS ==> slots[free].None?;
      assert i < TALKERS ==> slots[i].None? && forall k | 0 <= k < i :: slots[k].Some?;
    }
  }

  lemma OneMoreReport(reports: seq<GsvReport>, g: GsvReport, t: seq<Byte>)
    ensures Talkers(reports + [g]) == WithTalker(Talkers(reports), g.talker)
    ensures LatestOf(reports + [g], t) == if g.talker == t then Some(g) else LatestOf(reports, t)
  {
    assert (reports + [g])[..|reports|] == reports;
  }

  lemma StepIsInView(reports: seq<GsvReport>, g: GsvReport)
    requires var i := PlaceOf(Talkers(reports), g.talker);
             SlotOf(InView(reports), g.talker) == if i < TALKERS then i else TALKERS
    ensures TableStep(InView(reports), g) == InView(reports + [g])
  {
    hide SlotOf, Talkers, LatestOf, InView;
    var all, talkers, next := reports + [g], Talkers(reports), TableStep(InView(reports), g);
    TalkersReport(reports);
    OneMoreReport(reports, g, g.talker);
    forall k | 0 <= k < TALKERS ensures next[k] == InView(all)[k] {
      if k < |Talkers(all)| {
        OneMoreReport(reports, g, Talkers(all)[k]);
      }
    }
  }

  // ---------------------------------------------------------------- from the stream

  /** Bytes off the UART, each with the time it was fed. */
  datatype Fed = Fed(byte: Byte, now: nat)

  function BytesOf(stream: seq<Fed>): (h: seq<Byte>)
    ensures |h| == |stream|
  {
    if stream == [] then [] else BytesOf(stream[..|stream| - 1]) + [stream[|stream| - 1].byte]
  }

  /** What is known after a whole stream since power-up. */
  function RunReceiver(stream: seq<Fed>): Known {
    if stream == [] then NOTHING
    else
      var before, last := stream[..|stream| - 1], stream[|stream| - 1];
      Learned(RunReceiver(before), BytesOf(before), last.byte, last.now)
  }

  function Tagged(bytes: seq<Byte>, now: nat): (stream: seq<Fed>)
    ensures |stream| == |bytes| && forall i | 0 <= i < |bytes| :: stream[i] == Fed(bytes[i], now)
  {
    seq(|bytes|, i requires 0 <= i < |bytes| => Fed(bytes[i], now))
  }

  lemma {:induction false} BytesOfMore(stream: seq<Fed>, bytes: seq<Byte>, now: nat)
    ensures BytesOf(stream + Tagged(bytes, now)) == BytesOf(stream) + bytes
    decreases |bytes|
  {
    var all := stream + Tagged(bytes, now);
    if bytes == [] {
      assert all == stream;
    } else {
      var n := |bytes| - 1;
      BytesOfMore(stream, bytes[..n], now);
      assert all[..|all| - 1] == stream + Tagged(bytes[..n], now);
    }
  }

  /** A receiver that knows what a stream taught it, fed more, knows what the longer stream
      teaches: `Feed`, call after call, is `RunReceiver`. */
  lemma {:induction false} FeedContinuesTheStream(stream: seq<Fed>, bytes: seq<Byte>, now: nat)
    ensures RunReceiver(stream + Tagged(bytes, now)) == LearnedAll(RunReceiver(stream), BytesOf(stream), bytes, now)
    decreases |bytes|
  {
    hide Learned;
    var all := stream + Tagged(bytes, now);
    if bytes == [] {
      assert all == stream;
    } else {
      var n := |bytes| - 1;
      FeedContinuesTheStream(stream, bytes[..n], now);
      BytesOfMore(stream, bytes[..n], now);
      assert all[..|all| - 1] == stream + Tagged(bytes[..n], now);
    }
  }

  /** The satellite reports among some sentences. */
  function GsvReports(bodies: seq<seq<Byte>>): seq<GsvReport> {
    if bodies == [] then []
    else
      var before := GsvReports(bodies[..|bodies| - 1]);
      match Parse(bodies[|bodies| - 1])
      case Ok(Gsv(g)) => before + [g]
      case _ => before
  }

  function Parsed(bodies: seq<seq<Byte>>): nat {
    if bodies == [] then 0
    else Parsed(bodies[..|bodies| - 1]) + if Parse(bodies[|bodies| - 1]).Ok? then 1 else 0
  }

  /** After any stream the table is what the well-formed sentences in it say, and every
      sentence and every dropped line is counted once. */
  lemma {:induction false} StreamIsInView(stream: seq<Fed>)
    ensures RunReceiver(stream).inView == InView(GsvReports(Sentences(BytesOf(stream))))
    ensures RunReceiver(stream).sentences == Parsed(Sentences(BytesOf(stream)))
    ensures RunReceiver(stream).sentences + RunReceiver(stream).malformed
         == |Sentences(BytesOf(stream))| + Dropped(BytesOf(stream))
  {
    hide Learned, InView, Sentences, Dropped;
    if stream == [] {
      NothingHeard();
    } else {
      var before, last := stream[..|stream| - 1], stream[|stream| - 1];
      StreamIsInView(before);
      LearnsWhatWasSaid(RunReceiver(before), BytesOf(before), last.byte, last.now);
    }
  }

  /** A sentence of the stream, and when its last byte was fed. */
  datatype Heard = Heard(body: seq<Byte>, now: nat)

  function Said(stream: seq<Fed>): seq<Heard> {
    if stream == [] then []
    else
      var before, last := stream[..|stream| - 1], stream[|stream| - 1];
      var h := BytesOf(before);
      if Verdict(h, last.byte) != Sentence then Said(before)
      else Said(before) + [Heard(Line(h).value[..|Line(h).value| - 3], last.now)]
  }

  function Applied(k: Known, said: Heard): Known {
    match Parse(said.body)
    case Ok(report) => Taken(k.(sentences := k.sentences + 1, heardAt := Some(said.now)), report, said.now)
    case Err(_) => k
  }

  /** What is known from the sentences alone. */
  function KnownFrom(said: seq<Heard>): Known {
    if said == [] then NOTHING else Applied(KnownFrom(said[..|said| - 1]), said[|said| - 1])
  }

  lemma CountApart(k: Known, report: Report, now: nat)
    ensures Taken(k, report, now).(malformed := 0) == Taken(k.(malformed := 0), report, now)
  {
    hide TableStep;
  }

  lemma LearnedApart(k: Known, h: seq<Byte>, b: Byte, now: nat)
    ensures Verdict(h, b) == Sentence ==> Line(h).Some? && |Line(h).value| >= 3
    ensures Learned(k, h, b, now).(malformed := 0)
         == if Verdict(h, b) != Sentence then k.(malformed := 0)
            else Applied(k.(malformed := 0), Heard(Line(h).value[..|Line(h).value| - 3], now))
  {
    hide Parse, Verdict, Line, Taken;
    if Verdict(h, b) == Sentence {
      SentenceHasLine(h, b);
      var body := Line(h).value[..|Line(h).value| - 3];
      if Parse(body).Ok? {
        CountApart(k.(sentences := k.sentences + 1, heardAt := Some(now)), Parse(body).value, now);
      }
    }
  }

  /** All that is known but the count of what was malformed comes from the sentences that
      parse: noise, a failed checksum and a field that cannot be read change nothing else. */
  lemma {:induction false} OnlySentencesAreKnown(stream: seq<Fed>)
    ensures RunReceiver(stream).(malformed := 0) == KnownFrom(Said(stream))
  {
    hide Learned, Verdict, Line, Applied;
    if stream != [] {
      var before, last := stream[..|stream| - 1], stream[|stream| - 1];
      OnlySentencesAreKnown(before);
      LearnedApart(RunReceiver(before), BytesOf(before), last.byte, last.now);
    }
  }

  /** And those are the sentences of the stream. */
  lemma {:induction false} SaidAreSentences(stream: seq<Fed>)
    ensures |Said(stream)| == |Sentences(BytesOf(stream))|
    ensures forall i | 0 <= i < |Said(stream)| :: Said(stream)[i].body == Sentences(BytesOf(stream))[i]
  {
    hide Verdict, Line;
    if stream != [] {
      var before, last := stream[..|stream| - 1], stream[|stream| - 1];
      var h := BytesOf(before);
      SaidAreSentences(before);
      assert BytesOf(stream)[..|h|] == h && BytesOf(stream)[|h|] == last.byte;
    }
  }

  lemma NothingHeard()
    ensures NOTHING.inView == InView(GsvReports(Sentences([]))) && NOTHING.sentences == Parsed(Sentences([])) == 0
    ensures Dropped([]) == |Sentences([])| == NOTHING.malformed
  {
    TableIsInView([]);
  }

  /** One more byte, to a table that says what the stream said. */
  lemma LearnsWhatWasSaid(k: Known, h: seq<Byte>, b: Byte, now: nat)
    requires k.inView == InView(GsvReports(Sentences(h))) && k.sentences == Parsed(Sentences(h))
    requires k.sentences + k.malformed == |Sentences(h)| + Dropped(h)
    ensures var next, more := Learned(k, h, b, now), h + [b];
            && next.inView == InView(GsvReports(Sentences(more))) && next.sentences == Parsed(Sentences(more))
            && next.sentences + next.malformed == |Sentences(more)| + Dropped(more)
  {
    hide Parse, Verdict, Line, TableStep, InView, Taken, GsvReports, Parsed;
    assert (h + [b])[..|h|] == h;
    if Verdict(h, b) == Sentence {
      SentenceHasLine(h, b);
      var body := Line(h).value[..|Line(h).value| - 3];
      OneMoreSentence(Sentences(h), body);
      if Parse(body).Ok? {
        OnlyGsvTouchesTable(k.(sentences := k.sentences + 1, heardAt := Some(now)), Parse(body).value, now);
        if Parse(body).value.Gsv? {
          TableGrows(GsvReports(Sentences(h)), Parse(body).value.gsv);
        }
      }
    }
  }

  lemma OneMoreSentence(bodies: seq<seq<Byte>>, body: seq<Byte>)
    ensures Parsed(bodies + [body]) == Parsed(bodies) + if Parse(body).Ok? then 1 else 0
    ensures GsvReports(bodies + [body])
         == if Parse(body).Ok? && Parse(body).value.Gsv? then GsvReports(bodies) + [Parse(body).value.gsv]
            else GsvReports(bodies)
  {
    hide Parse;
    assert (bodies + [body])[..|bodies|] == bodies;
  }

  lemma SentenceHasLine(h: seq<Byte>, b: Byte)
    requires Verdict(h, b) == Sentence
    ensures Line(h).Some? && |Line(h).value| >= 3
  {
  }

  lemma OnlyGsvTouchesTable(k: Known, report: Report, now: nat)
    ensures Taken(k, report, now).inView == if report.Gsv? then TableStep(k.inView, report.gsv) else k.inView
    ensures Taken(k, report, now).sentences == k.sentences && Taken(k, report, now).malformed == k.malformed
  {
  }

  lemma TableGrows(reports: seq<GsvReport>, g: GsvReport)
    ensures TableStep(InView(reports), g) == InView(reports + [g])
  {
    SlotIsPlace(reports, g.talker);
    StepIsInView(reports, g);
  }

  // -------------------------------------------------------------- what is displayed

  /** `reduce` with `saturating_add` over the filled slots. */
  function Total(slots: seq<Slot>): Option<nat> {
    if slots == [] then None
    else
      var before, last := Total(slots[..|slots| - 1]), slots[|slots| - 1];
      if last.None? then before
      else if before.None? then Some(last.value.inView)
      else Some(if before.value + last.value.inView <= 255 then before.value + last.value.inView else 255)
  }

  function Sum(slots: seq<Slot>): nat {
    if slots == [] then 0
    else Sum(slots[..|slots| - 1]) + if slots[|slots| - 1].Some? then slots[|slots| - 1].value.inView else 0
  }

  /** The displayed total is the sum over the talkers, held at 255; nothing when none has
      reported. */
  lemma {:induction false} TotalSaturates(slots: seq<Slot>)
    ensures Total(slots).None? <==> forall s | s in slots :: s.None?
    ensures Total(slots).Some? ==> Total(slots).value == if Sum(slots) <= 255 then Sum(slots) else 255
    ensures Total(slots).None? ==> Sum(slots) == 0
  {
    if slots != [] {
      var before := slots[..|slots| - 1];
      assert slots == before + [slots[|slots| - 1]];
      TotalSaturates(before);
    }
  }
}
