/** What a receiver knows after a sentence, said of the fields as they are written: which field
    is the latitude, which the longitude, and what each of them makes of what was known. */
module GpsFixLaws {
  import opened Bytes
  import opened Results
  import opened GpsLexer
  import opened GpsClock
  import opened GpsFields
  import opened GpsReceiver

  // -------------------------------------------------------------- fields and commas

  /** The fields with a comma between each two. */
  function Joined(fields: seq<seq<Byte>>): seq<Byte>
    requires fields != []
  {
    if |fields| == 1 then fields[0] else fields[0] + [COMMA] + Joined(fields[1..])
  }

  predicate Plain(fields: seq<seq<Byte>>) { forall k | 0 <= k < |fields| :: COMMA !in fields[k] }

  lemma FoundAt(s: seq<Byte>, b: Byte, i: nat)
    requires i < |s| && b !in s[..i] && s[i] == b
    ensures Find(s, b) == i
  {
    hide Find;
    var j := Find(s, b);
    assert forall k | 0 <= k < i :: s[k] == s[..i][k];
    assert forall k | 0 <= k < j :: s[k] == s[..j][k];
  }

  lemma NotFound(s: seq<Byte>, b: Byte)
    requires b !in s
    ensures Find(s, b) == |s|
  {
    hide Find;
    assert forall k | 0 <= k < |s| :: s[k] in s;
  }

  /** Splitting at the commas undoes joining. */
  lemma {:induction false} SplitInvertsJoined(fields: seq<seq<Byte>>)
    requires fields != [] && Plain(fields)
    ensures Split(Joined(fields), COMMA) == fields
    decreases |fields|
  {
    hide Find;
    var s, first := Joined(fields), fields[0];
    if |fields| == 1 {
      NotFound(s, COMMA);
      assert fields == [first];
    } else {
      assert s[..|first|] == first && s[|first| + 1..] == Joined(fields[1..]);
      FoundAt(s, COMMA, |first|);
      SplitInvertsJoined(fields[1..]);
      assert fields == [first] + fields[1..];
    }
  }

  // --------------------------------------------------------------- what a field says

  /** `hhmmss` and whatever fraction, or nothing. */
  predicate WritesTime(s: seq<Byte>, t: Option<Time>) {
    match t
    case None => s == []
    case Some(t) =>
      var whole := BeforeDot(s);
      && |whole| == 6 && AllDigits(whole)
      && Decimal(whole[..2]) == t.hour < 24 && Decimal(whole[2..4]) == t.minute < 60
      && Decimal(whole[4..]) == t.second <= 60
  }

  /** `ddmmyy` of this century, or nothing. */
  predicate WritesDate(s: seq<Byte>, d: Option<Date>) {
    match d
    case None => s == []
    case Some(d) =>
      && |s| == 6 && AllDigits(s)
      && Decimal(s[..2]) == d.day && 1 <= d.day <= 31 && Decimal(s[2..4]) == d.month && 1 <= d.month <= 12
      && 2000 + Decimal(s[4..]) == d.year
  }

  /** A number, or nothing for none. */
  ghost predicate WritesCount(s: seq<Byte>, n: nat) {
    n <= 255 && ((s == [] && n == 0) || exists digits :: Writes(s, digits, n))
  }

  /** Decimetres from decimal metres, or nothing; of a whole part past an `i64` the tenths. */
  predicate WritesAltitude(alt: seq<Byte>, unit: seq<Byte>, a: Option<int>) {
    match a
    case None => alt == []
    case Some(dm) =>
      && unit == METRES && IsDecimal(alt)
      && dm == (if Decimal(BeforeDot(Unsigned(alt))) > I64_MAX then TenthsAlone(alt) else Spelled(alt, 1))
      && FitsI32(dm)
  }

  /** Degrees and minutes, in micro-degrees. */
  predicate WritesAngle(s: seq<Byte>, degreeDigits: nat, udeg: int) {
    && Find(s, DOT) == degreeDigits + 2
    && IsSigned(s[..degreeDigits]) && IsMinutes(s[degreeDigits..degreeDigits + 2], AfterDot(s))
    && udeg == 1_000_000 * SignedDecimal(s[..degreeDigits])
               + (MinutesRead(s[degreeDigits..degreeDigits + 2], AfterDot(s)) + 30) / 60
  }

  /** North and east up. */
  datatype Place = Place(north: int, east: int)

  predicate WritesPlace(lat: seq<Byte>, ns: seq<Byte>, lon: seq<Byte>, ew: seq<Byte>, p: Option<Place>) {
    match p
    case None => lat == [] && lon == []
    case Some(p) =>
      && (lat != [] || lon != [])
      && ((ns == NORTH && WritesAngle(lat, 2, p.north)) || (ns == SOUTH && WritesAngle(lat, 2, -p.north)))
      && ((ew == EAST && WritesAngle(lon, 3, p.east)) || (ew == WEST && WritesAngle(lon, 3, -p.east)))
      && -90_000_000 <= p.north <= 90_000_000 && -180_000_000 <= p.east <= 180_000_000
  }

  lemma {:induction false} TwoDigitsAre(s: seq<Byte>, at: nat)
    requires at + 2 <= |s|
    ensures TwoDigits(s, at) == Decimal(s[at..at + 2])
  {
    var t := s[at..at + 2];
    assert t[..1][..0] == [];
    assert Decimal(t[..1]) == DigitAt(s, at);
  }

  lemma TimeIff(s: seq<Byte>, t: Option<Time>)
    ensures ReadTime(s) == Ok(t) <==> WritesTime(s, t)
  {
    hide Find, Decimal;
    var whole := BeforeDot(s);
    if |whole| == 6 {
      TwoDigitsAre(whole, 0);
      TwoDigitsAre(whole, 2);
      TwoDigitsAre(whole, 4);
      assert whole[..2] == whole[0..2] && whole[4..] == whole[4..6];
    }
    assert s == [] ==> whole == [];
  }

  lemma DateIff(s: seq<Byte>, d: Option<Date>)
    ensures ReadDate(s) == Ok(d) <==> WritesDate(s, d)
  {
    hide Decimal;
    if |s| == 6 {
      TwoDigitsAre(s, 0);
      TwoDigitsAre(s, 2);
      TwoDigitsAre(s, 4);
      assert s[..2] == s[0..2] && s[4..] == s[4..6];
    }
  }

  lemma CountIff(s: seq<Byte>, n: nat)
    ensures ReadCount(s) == Ok(n) <==> WritesCount(s, n)
  {
    hide ReadCount, Writes;
    if n <= 255 {
      CountIsWhatIsWritten(s, n);
    }
  }

  lemma TenthsFit(alt: seq<Byte>)
    ensures FitsI32(TenthsAlone(alt))
  {
  }

  lemma EmptyIsNoDecimal()
    ensures !IsDecimal([])
  {
  }

  lemma AltitudeIff(alt: seq<Byte>, unit: seq<Byte>, a: Option<int>)
    ensures ReadAltitude(alt, unit) == Ok(a) <==> WritesAltitude(alt, unit, a)
  {
    hide Fixed, IsDecimal, Decimal, BeforeDot, Unsigned, TenthsAlone, Spelled;
    EmptyIsNoDecimal();
    TenthsFit(alt);
    if alt != [] {
      AltitudeIsRead(alt);
    }
  }

  lemma AngleIs(s: seq<Byte>, degreeDigits: nat, udeg: int)
    requires 1 <= degreeDigits <= 3
    ensures Angle(s, degreeDigits) == Ok(udeg) <==> WritesAngle(s, degreeDigits, udeg)
  {
    hide Angle, IsSigned, IsMinutes, SignedDecimal, MinutesRead, AfterDot, Find;
    AngleIff(s, degreeDigits);
  }

  function AsPair(p: Option<Place>): Option<(int, int)> {
    if p.None? then None else Some((p.value.north, p.value.east))
  }

  lemma PlaceIs(lat: seq<Byte>, ns: seq<Byte>, lon: seq<Byte>, ew: seq<Byte>, p: Option<Place>)
    ensures Coordinates(lat, ns, lon, ew) == Ok(AsPair(p)) <==> WritesPlace(lat, ns, lon, ew, p)
  {
    hide Coordinates, Angle, WritesAngle;
    if p.None? {
      NoFixIff(lat, ns, lon, ew);
    } else {
      var y, x := p.value.north, p.value.east;
      PlaceIff(lat, ns, lon, ew, y, x);
      AngleIs(lat, 2, y);
      AngleIs(lat, 2, -y);
      AngleIs(lon, 3, x);
      AngleIs(lon, 3, -x);
    }
  }

  lemma WellShapedAngleWrites(s: seq<Byte>, degreeDigits: nat)
    requires 1 <= degreeDigits <= 3 && IsAngle(s, degreeDigits) && WholeMinutes(s, degreeDigits) < 60
    ensures WritesAngle(s, degreeDigits, MicroDegrees(s, degreeDigits))
  {
    hide Angle, WritesAngle, MicroDegrees, IsAngle, WholeMinutes;
    AngleIsMicroDegrees(s, degreeDigits);
    AngleIs(s, degreeDigits, MicroDegrees(s, degreeDigits));
  }

  function Toward(positive: bool, n: nat): int { if positive then n else -(n as int) }

  /** A place as receivers write one: its micro-degrees, north and east up. */
  lemma WellShapedPlaceWrites(lat: seq<Byte>, ns: seq<Byte>, lon: seq<Byte>, ew: seq<Byte>)
    requires IsAngle(lat, 2) && WholeMinutes(lat, 2) < 60 && IsAngle(lon, 3) && WholeMinutes(lon, 3) < 60
    requires (ns == NORTH || ns == SOUTH) && (ew == EAST || ew == WEST)
    requires MicroDegrees(lat, 2) <= 90_000_000 && MicroDegrees(lon, 3) <= 180_000_000
    ensures WritesPlace(lat, ns, lon, ew,
                        Some(Place(Toward(ns == NORTH, MicroDegrees(lat, 2)),
                                   Toward(ew == EAST, MicroDegrees(lon, 3)))))
  {
    hide WritesAngle, IsAngle, WholeMinutes, MicroDegrees;
    WellShapedAngleWrites(lat, 2);
    WellShapedAngleWrites(lon, 3);
    ShapedIsNotEmpty(lat, 2);
  }

  // ------------------------------------------------------------- what a sentence says

  /** GGA: the fields after the head are time, latitude, N or S, longitude, E or W, quality,
      satellites, dilution, altitude, its unit. */
  ghost predicate GgaSays(f: seq<seq<Byte>>, t: Option<Time>, quality: nat, sats: nat, a: Option<int>,
                          p: Option<Place>) {
    && |f| >= 10
    && WritesTime(f[0], t) && WritesCount(f[5], quality) && WritesCount(f[6], sats)
    && WritesAltitude(f[8], f[9], a)
    && if quality == 0 then p.None? else WritesPlace(f[1], f[2], f[3], f[4], p)
  }

  /** RMC: time, A or V, latitude, N or S, longitude, E or W, speed, course, date. */
  ghost predicate RmcSays(f: seq<seq<Byte>>, t: Option<Time>, valid: bool, d: Option<Date>, p: Option<Place>) {
    && |f| >= 9
    && WritesTime(f[0], t) && (if valid then f[1] == ACTIVE else f[1] == VOID || f[1] == []) && WritesDate(f[8], d)
    && if valid then WritesPlace(f[2], f[3], f[4], f[5], p) else p.None?
  }

  /** GSV: how many messages, which one, how many satellites in view. */
  ghost predicate GsvSays(f: seq<seq<Byte>>, n: nat) { |f| >= 3 && WritesCount(f[2], n) }

  function FixOf(p: Option<Place>, a: Option<int>): Option<Fix> {
    if p.None? then None else Some(Fix(p.value.north, p.value.east, a))
  }

  lemma GgaIs(f: seq<seq<Byte>>, t: Option<Time>, quality: nat, sats: nat, a: Option<int>, p: Option<Place>)
    requires GgaSays(f, t, quality, sats, a, p)
    ensures ReadGga(f) == Ok(GgaReport(t, quality, sats, FixOf(p, a)))
  {
    hide ReadTime, ReadCount, ReadAltitude, Coordinates, WritesTime, WritesCount, WritesAltitude, WritesPlace;
    TimeIff(f[0], t);
    CountIff(f[5], quality);
    CountIff(f[6], sats);
    AltitudeIff(f[8], f[9], a);
    PlaceIs(f[1], f[2], f[3], f[4], p);
  }

  lemma GgaIsRead(f: seq<seq<Byte>>)
    requires ReadGga(f).Ok?
    ensures exists t, quality, sats, a, p :: GgaSays(f, t, quality, sats, a, p)
  {
    hide ReadTime, ReadCount, ReadAltitude, Coordinates, WritesTime, WritesCount, WritesAltitude, WritesPlace;
    var t, quality, sats := ReadTime(f[0]).value, ReadCount(f[5]).value, ReadCount(f[6]).value;
    var a := ReadAltitude(f[8], f[9]).value;
    var c := Coordinates(f[1], f[2], f[3], f[4]);
    var p := if quality == 0 || c.value.None? then None else Some(Place(c.value.value.0, c.value.value.1));
    TimeIff(f[0], t);
    CountIff(f[5], quality);
    CountIff(f[6], sats);
    AltitudeIff(f[8], f[9], a);
    PlaceIs(f[1], f[2], f[3], f[4], p);
    assert GgaSays(f, t, quality, sats, a, p);
  }

  lemma RmcIs(f: seq<seq<Byte>>, t: Option<Time>, valid: bool, d: Option<Date>, p: Option<Place>)
    requires RmcSays(f, t, valid, d, p)
    ensures ReadRmc(f) == Ok(RmcReport(t, d, valid, FixOf(p, None)))
  {
    hide ReadTime, ReadDate, Coordinates, WritesTime, WritesDate, WritesPlace;
    TimeIff(f[0], t);
    DateIff(f[8], d);
    PlaceIs(f[2], f[3], f[4], f[5], p);
  }

  lemma RmcIsRead(f: seq<seq<Byte>>)
    requires ReadRmc(f).Ok?
    ensures exists t, valid, d, p :: RmcSays(f, t, valid, d, p)
  {
    hide ReadTime, ReadDate, Coordinates, WritesTime, WritesDate, WritesPlace;
    var t, valid, d := ReadTime(f[0]).value, f[1] == ACTIVE, ReadDate(f[8]).value;
    var c := Coordinates(f[2], f[3], f[4], f[5]);
    var p := if !valid || c.value.None? then None else Some(Place(c.value.value.0, c.value.value.1));
    TimeIff(f[0], t);
    DateIff(f[8], d);
    PlaceIs(f[2], f[3], f[4], f[5], p);
    assert RmcSays(f, t, valid, d, p);
  }

  lemma {:induction false} FixedErrs(s: seq<Byte>, places: nat)
    ensures Fixed(s, places).Err? ==> Fixed(s, places) == Err(Field)
  {
    hide IsDecimal;
    if IsDecimal(s) {
      FixedFromParts(s, places);
      var w := Decimal(BeforeDot(Unsigned(s)));
      ScaleErrs(if w <= I64_MAX then w else 0, AfterDot(Unsigned(s)), places);
    }
  }

  lemma {:induction false} ScaleErrs(w: int, frac: seq<Byte>, n: nat)
    ensures ScaleI64(w, frac, n).Err? ==> ScaleI64(w, frac, n) == Err(Field)
  {
    if n > 0 {
      ScaleErrs(w, frac, n - 1);
    }
  }

  lemma PlaceErrs(lat: seq<Byte>, ns: seq<Byte>, lon: seq<Byte>, ew: seq<Byte>)
    ensures Coordinates(lat, ns, lon, ew).Err? ==> Coordinates(lat, ns, lon, ew) == Err(Field)
  {
    hide Fixed, ParseI64, Find;
    if Find(lat, DOT) == 4 {
      FixedErrs(lat[2..], 6);
    }
    if Find(lon, DOT) == 5 {
      FixedErrs(lon[3..], 6);
    }
  }

  lemma AltitudeErrs(alt: seq<Byte>, unit: seq<Byte>)
    ensures ReadAltitude(alt, unit).Err? ==> ReadAltitude(alt, unit) == Err(Field)
  {
    hide Fixed;
    FixedErrs(alt, 1);
  }

  /** A sentence that is refused is refused for a field, whichever it is. */
  lemma {:induction false} RefusedForAField(body: seq<Byte>)
    ensures Parse(body).Err? ==> Parse(body) == Err(Field)
  {
    hide Split, Coordinates, ReadAltitude, BeforeDot, Decimal;
    var f := Split(body, COMMA)[1..];
    if |f| >= 9 {
      PlaceErrs(f[2], f[3], f[4], f[5]);
      PlaceErrs(f[1], f[2], f[3], f[4]);
    }
    if |f| >= 10 {
      AltitudeErrs(f[8], f[9]);
    }
  }

  // ----------------------------------------------------------------- at the end of a stream

  /** A body that can be sent, with its sum and an end to the line. */
  ghost predicate Sendable(body: seq<Byte>, digits: seq<Byte>, end: Byte) {
    IsBody(body) && WritesHex(digits, XorAll(body)) && (end == 0x0D || end == 0x0A)
  }

  /** The stream and then the line. */
  function Sent(stream: seq<Fed>, body: seq<Byte>, digits: seq<Byte>, end: Byte, now: nat): seq<Fed> {
    stream + Tagged([START] + (body + [STAR] + digits), now) + [Fed(end, now)]
  }

  lemma {:induction false} NothingSaidMidLine(stream: seq<Fed>, line: seq<Byte>, now: nat)
    requires forall b | b in line :: Printable(b)
    ensures Said(stream + Tagged(line, now)) == Said(stream)
    decreases |line|
  {
    hide Verdict, Line;
    var all := stream + Tagged(line, now);
    if line == [] {
      assert all == stream;
    } else {
      var most := line[..|line| - 1];
      PrintableEndsNothing(BytesOf(all[..|all| - 1]), line[|line| - 1]);
      NothingSaidMidLine(stream, most, now);
      assert all[..|all| - 1] == stream + Tagged(most, now);
      assert all[|all| - 1].byte == line[|line| - 1];
    }
  }

  lemma {:induction false} SaidAtTheEnd(stream: seq<Fed>, body: seq<Byte>, digits: seq<Byte>, end: Byte, now: nat)
    requires Sendable(body, digits, end)
    ensures Said(Sent(stream, body, digits, end, now)) == Said(stream) + [Heard(body, now)]
  {
    hide IsChecked, Judged, SinceStart, SpellsDigit;
    var line := body + [STAR] + digits;
    var all := Sent(stream, body, digits, end, now);
    SentenceLine(body, digits);
    NothingSaidMidLine(stream, [START] + line, now);
    BytesOfMore(stream, [START] + line, now);
    var h := BytesOf(stream) + ([START] + line);
    assert h == BytesOf(stream) + [START] + line;
    SinceStartSplits(h, BytesOf(stream), line);
    assert all[..|all| - 1] == stream + Tagged([START] + line, now);
    assert line[..|line| - 3] == body;
  }

  /** What a line at the end of any stream adds, but to the count of what was malformed. */
  lemma {:induction false} KnownAfter(stream: seq<Fed>, body: seq<Byte>, digits: seq<Byte>, end: Byte, now: nat)
    requires Sendable(body, digits, end)
    ensures RunReceiver(Sent(stream, body, digits, end, now)).(malformed := 0)
         == Applied(RunReceiver(stream).(malformed := 0), Heard(body, now))
  {
    hide Sendable, Applied, RunReceiver, Said, Sent;
    OnlySentencesAreKnown(stream);
    OnlySentencesAreKnown(Sent(stream, body, digits, end, now));
    SaidAtTheEnd(stream, body, digits, end, now);
    var said := Said(stream) + [Heard(body, now)];
    assert said[..|said| - 1] == Said(stream);
  }

  /** A body of a talker, the letters of a sentence, and its fields. */
  ghost predicate Carries(body: seq<Byte>, talker: seq<Byte>, letters: seq<Byte>, f: seq<seq<Byte>>) {
    && |talker| == 2 && |letters| == 3 && talker[0] != LETTER_P && COMMA !in talker + letters && Plain(f)
    && body == Joined([talker + letters] + f)
  }

  lemma CarriedFields(body: seq<Byte>, talker: seq<Byte>, letters: seq<Byte>, f: seq<seq<Byte>>)
    requires Carries(body, talker, letters, f)
    ensures Split(body, COMMA) == [talker + letters] + f
    ensures ([talker + letters] + f)[1..] == f
    ensures (talker + letters)[2..] == letters && (talker + letters)[..2] == talker
  {
    SplitInvertsJoined([talker + letters] + f);
  }

  lemma ParsedBody(body: seq<Byte>, talker: seq<Byte>, letters: seq<Byte>, f: seq<seq<Byte>>)
    requires Carries(body, talker, letters, f)
    ensures letters == GGA ==>
            Parse(body) == if ReadGga(f).Ok? then Ok(Gga(ReadGga(f).value)) else Err(ReadGga(f).error)
    ensures letters == RMC ==>
            Parse(body) == if ReadRmc(f).Ok? then Ok(Rmc(ReadRmc(f).value)) else Err(ReadRmc(f).error)
    ensures letters == GSV ==>
            Parse(body) == if ReadGsv(talker, f).Ok? then Ok(Gsv(ReadGsv(talker, f).value))
                           else Err(ReadGsv(talker, f).error)
  {
    hide ReadGga, ReadRmc, ReadGsv, Split;
    CarriedFields(body, talker, letters, f);
    assert GGA[1] != RMC[1] && GSV[1] != GGA[1] && GSV[0] != RMC[0];
  }

  /** After any stream and a GGA that says something: its satellites; its time, if it has one;
      and, if it has a fix, where, how high, and since when. Nothing else has changed. */
  lemma {:induction false} GgaIsKnown(stream: seq<Fed>, body: seq<Byte>, digits: seq<Byte>, end: Byte, now: nat,
                                      talker: seq<Byte>, f: seq<seq<Byte>>, t: Option<Time>, quality: nat,
                                      sats: nat, a: Option<int>, p: Option<Place>)
    requires Sendable(body, digits, end) && Carries(body, talker, GGA, f) && GgaSays(f, t, quality, sats, a, p)
    ensures var before, r := RunReceiver(stream), RunReceiver(Sent(stream, body, digits, end, now));
            && r.satsUsed == Some(sats)
            && r.time == (if t.Some? then t else before.time)
            && (p.Some? ==>
                  && r.fix.Some? && r.fix.value.latUdeg == p.value.north && r.fix.value.lonUdeg == p.value.east
                  && r.fix.value.altDm == a && r.fixAt == Some(now))
            && (p.None? ==> r.fix == before.fix && r.fixAt == before.fixAt)
            && r.date == before.date && r.inView == before.inView
            && r.sentences == before.sentences + 1 && r.heardAt == Some(now)
  {
    hide RunReceiver, Sendable, Carries, Parse, ReadGga, GgaSays, Sent;
    KnownAfter(stream, body, digits, end, now);
    ParsedBody(body, talker, GGA, f);
    GgaIs(f, t, quality, sats, a, p);
  }

  /** After an RMC: its time and date, if it has them; and, if it has a fix, where and since
      when, at the height last known. */
  lemma {:induction false} RmcIsKnown(stream: seq<Fed>, body: seq<Byte>, digits: seq<Byte>, end: Byte, now: nat,
                                      talker: seq<Byte>, f: seq<seq<Byte>>, t: Option<Time>, valid: bool,
                                      d: Option<Date>, p: Option<Place>)
    requires Sendable(body, digits, end) && Carries(body, talker, RMC, f) && RmcSays(f, t, valid, d, p)
    ensures var before, r := RunReceiver(stream), RunReceiver(Sent(stream, body, digits, end, now));
            && r.time == (if t.Some? then t else before.time)
            && r.date == (if d.Some? then d else before.date)
            && (p.Some? ==>
                  && r.fix.Some? && r.fix.value.latUdeg == p.value.north && r.fix.value.lonUdeg == p.value.east
                  && r.fix.value.altDm == (if before.fix.Some? then before.fix.value.altDm else None)
                  && r.fixAt == Some(now))
            && (p.None? ==> r.fix == before.fix && r.fixAt == before.fixAt)
            && r.satsUsed == before.satsUsed && r.inView == before.inView
            && r.sentences == before.sentences + 1 && r.heardAt == Some(now)
  {
    hide RunReceiver, Sendable, Carries, Parse, ReadRmc, RmcSays, Sent;
    KnownAfter(stream, body, digits, end, now);
    ParsedBody(body, talker, RMC, f);
    RmcIs(f, t, valid, d, p);
  }

  lemma GsvIs(talker: seq<Byte>, f: seq<seq<Byte>>, n: nat)
    requires GsvSays(f, n)
    ensures ReadGsv(talker, f) == Ok(GsvReport(talker, n))
  {
    hide WritesCount, ReadCount;
    CountIff(f[2], n);
  }

  /** Slot `k` now has the talker's count, and had the talker's or nothing; or there is none for
      it, all being others'. */
  ghost predicate GoesIn(slots: seq<Slot>, next: seq<Slot>, talker: seq<Byte>, n: nat, k: nat)
    requires |slots| == |next| == TALKERS && k <= TALKERS && n <= 255
  {
    && (forall j | 0 <= j < TALKERS && j != k :: next[j] == slots[j])
    && (k == TALKERS ==> forall j | 0 <= j < TALKERS :: slots[j].Some?)
    && (k == TALKERS || slots[k].None? ==>
          forall j | 0 <= j < TALKERS && slots[j].Some? :: slots[j].value.talker != talker)
    && (k < TALKERS ==> next[k] == Some(GsvReport(talker, n)))
    && (k < TALKERS && slots[k].Some? ==> slots[k].value.talker == talker)
  }

  /** After a GSV: its talker's slot holds the count, and if five others have the slots, none
      does; no other slot and nothing else has changed. */
  lemma {:induction false} GsvIsKnown(stream: seq<Fed>, body: seq<Byte>, digits: seq<Byte>, end: Byte, now: nat,
                                      talker: seq<Byte>, f: seq<seq<Byte>>, n: nat)
    requires Sendable(body, digits, end) && Carries(body, talker, GSV, f) && GsvSays(f, n)
    ensures var before, r := RunReceiver(stream), RunReceiver(Sent(stream, body, digits, end, now));
            && |r.inView| == |before.inView| == TALKERS
            && (exists k | 0 <= k <= TALKERS :: GoesIn(before.inView, r.inView, talker, n, k))
            && r == before.(inView := r.inView, sentences := before.sentences + 1, heardAt := Some(now),
                            malformed := r.malformed)
  {
    hide RunReceiver, Sendable, Carries, Parse, ReadGsv, GsvSays, Sent, TableStep;
    KnownAfter(stream, body, digits, end, now);
    ParsedBody(body, talker, GSV, f);
    GsvIs(talker, f, n);
    FiveSlots(stream);
    TableTakes(RunReceiver(stream).inView, GsvReport(talker, n));
  }

  lemma FiveSlots(stream: seq<Fed>)
    ensures |RunReceiver(stream).inView| == TALKERS
  {
    hide RunReceiver, Sentences, GsvReports;
    StreamIsInView(stream);
  }

  lemma TableTakes(slots: seq<Slot>, g: GsvReport)
    requires |slots| == TALKERS
    ensures var r := TableStep(slots, g);
            |r| == TALKERS && exists k | 0 <= k <= TALKERS :: GoesIn(slots, r, g.talker, g.inView, k)
  {
    var k, free := TalkerSlot(slots, g.talker), FreeSlot(slots);
    hide TalkerSlot, FreeSlot;
    var r := TableStep(slots, g);
    assert GoesIn(slots, r, g.talker, g.inView, if k < TALKERS then k else free);
  }

  /** A head the receiver reads nothing after: not a talker and three letters, a maker's own,
      or of another kind. */
  predicate IsOther(head: seq<Byte>) {
    |head| != 5 || head[0] == LETTER_P || (head[2..] != GGA && head[2..] != RMC && head[2..] != GSV)
  }

  /** After a sentence of any other kind, only that it was heard. */
  lemma {:induction false} OthersAreNoticed(stream: seq<Fed>, body: seq<Byte>, digits: seq<Byte>, end: Byte, now: nat,
                                            head: seq<Byte>, f: seq<seq<Byte>>)
    requires Sendable(body, digits, end) && Plain([head] + f) && body == Joined([head] + f) && IsOther(head)
    ensures var before, r := RunReceiver(stream), RunReceiver(Sent(stream, body, digits, end, now));
            r == before.(sentences := before.sentences + 1, heardAt := Some(now), malformed := r.malformed)
  {
    hide RunReceiver, Sendable, Sent, Split, Joined, Plain;
    KnownAfter(stream, body, digits, end, now);
    SplitInvertsJoined([head] + f);
    assert Parse(body) == Ok(Other);
  }

  /** A GGA, RMC or GSV with fewer fields, or with one that says nothing of its kind, is
      refused whole: nothing it says is known. */
  lemma {:induction false} WhatSaysNothingIsRefused(stream: seq<Fed>, body: seq<Byte>, digits: seq<Byte>, end: Byte,
                                                    now: nat, talker: seq<Byte>, letters: seq<Byte>,
                                                    f: seq<seq<Byte>>)
    requires Sendable(body, digits, end) && Carries(body, talker, letters, f)
    requires || (letters == GGA && forall t, quality, sats, a, p :: !GgaSays(f, t, quality, sats, a, p))
             || (letters == RMC && forall t, valid, d, p :: !RmcSays(f, t, valid, d, p))
             || (letters == GSV && forall n :: !GsvSays(f, n))
    ensures var before, r := RunReceiver(stream), RunReceiver(Sent(stream, body, digits, end, now));
            r == before.(malformed := r.malformed)
  {
    hide RunReceiver, Sendable, Carries, Parse, Sent, ReadGga, ReadRmc, GgaSays, RmcSays;
    KnownAfter(stream, body, digits, end, now);
    ParsedBody(body, talker, letters, f);
    if letters == GGA && ReadGga(f).Ok? {
      GgaIsRead(f);
    } else if letters == RMC && ReadRmc(f).Ok? {
      RmcIsRead(f);
    } else if letters == GSV && ReadGsv(talker, f).Ok? {
      GsvIsRead(talker, f);
    }
  }

  lemma GsvIsRead(talker: seq<Byte>, f: seq<seq<Byte>>)
    requires ReadGsv(talker, f).Ok?
    ensures exists n :: GsvSays(f, n)
  {
    hide WritesCount, ReadCount;
    CountIff(f[2], ReadCount(f[2]).value);
    assert GsvSays(f, ReadCount(f[2]).value);
  }
}
