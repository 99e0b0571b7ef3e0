/** `Date::unix_seconds` of `core/src/gps.rs`, against a calendar that counts the days one
    by one. POSIX.1-2017, Base Definitions, section 4.16, "Seconds Since the Epoch". */
module GpsClock {
  import opened Results

  datatype Time = Time(hour: nat, minute: nat, second: nat)

  datatype Date = Date(year: nat, month: nat, day: nat)

  /** Days from 1970-01-01, by Howard Hinnant's algorithm: years from March, in eras of 400. */
  function DayNumber(d: Date): int {
    var y: int := d.year - if d.month <= 2 then 1 else 0;
    var era := y / 400;
    var yearOfEra := y - era * 400;
    var dayOfYear := (153 * (if d.month > 2 then d.month - 3 else d.month + 9) + 2) / 5 + d.day - 1;
    var dayOfEra := yearOfEra * 365 + yearOfEra / 4 - yearOfEra / 100 + dayOfYear;
    era * 146_097 + dayOfEra - 719_468
  }

  function UnixSeconds(d: Date, t: Time): Option<int> {
    if d.year < 1970 || d.month < 1 || d.month > 12 || d.day < 1 || d.day > 31
       || t.hour > 23 || t.minute > 59 || t.second > 60 then None
    else Some(DayNumber(d) * 86_400 + t.hour * 3_600 + t.minute * 60 + t.second)
  }

  // ---------------------------------------------------------------- the calendar

  predicate IsLeap(year: nat) { year % 4 == 0 && (year % 100 != 0 || year % 400 == 0) }

  function MonthLength(year: nat, month: nat): nat {
    if month == 2 then (if IsLeap(year) then 29 else 28)
    else if month == 4 || month == 6 || month == 9 || month == 11 then 30
    else 31
  }

  predicate OnCalendar(d: Date) {
    1970 <= d.year && 1 <= d.month <= 12 && 1 <= d.day <= MonthLength(d.year, d.month)
  }

  function NextDay(d: Date): Date {
    if d.day < MonthLength(d.year, d.month) then Date(d.year, d.month, d.day + 1)
    else if d.month < 12 then Date(d.year, d.month + 1, 1)
    else Date(d.year + 1, 1, 1)
  }

  /** The date `n` days after 1 January 1970. */
  function DayAfterEpoch(n: nat): (d: Date)
    ensures OnCalendar(d)
  {
    if n == 0 then Date(1970, 1, 1) else NextDay(DayAfterEpoch(n - 1))
  }

  // --------------------------------------------------------- the day number counts

  lemma NewYearOfEra(y: nat)
    ensures (y + 1) / 400 * 146_097 + (y + 1) % 400 * 365 + (y + 1) % 400 / 4 - (y + 1) % 400 / 100
         == y / 400 * 146_097 + y % 400 * 365 + y % 400 / 4 - y % 400 / 100
            + if IsLeap(y + 1) then 366 else 365
  {
    var k, r := y / 400, y % 400;
    LeapInEra(k, r + 1);
    if r == 399 {
      DividesBy400(y + 1, k + 1, 0);
    } else {
      DividesBy400(y + 1, k, r + 1);
      LeapsCount(r);
    }
  }

  lemma DividesBy400(y: nat, k: nat, r: nat)
    requires y == 400 * k + r && r < 400
    ensures y / 400 == k && y % 400 == r
  {
  }

  lemma LeapInEra(k: nat, r: nat)
    requires r <= 400
    ensures IsLeap(400 * k + r) <==> IsLeap(r)
  {
    RemainderBy4(100 * k, r);
    RemainderBy100(4 * k, r);
    RemainderBy400(k, r);
  }

  lemma RemainderBy4(m: nat, r: nat)
    ensures (4 * m + r) % 4 == r % 4
  {
    assert 4 * m + r == 4 * (m + r / 4) + r % 4;
  }

  lemma RemainderBy100(m: nat, r: nat)
    ensures (100 * m + r) % 100 == r % 100
  {
    assert 100 * m + r == 100 * (m + r / 100) + r % 100;
  }

  lemma RemainderBy400(m: nat, r: nat)
    ensures (400 * m + r) % 400 == r % 400
  {
    assert 400 * m + r == 400 * (m + r / 400) + r % 400;
  }

  lemma LeapsCount(r: nat)
    requires r < 399
    ensures (r + 1) / 4 - (r + 1) / 100 - (r / 4 - r / 100) == if IsLeap(r + 1) then 1 else 0
  {
    assert (r + 1) / 4 - r / 4 == if (r + 1) % 4 == 0 then 1 else 0;
    assert (r + 1) / 100 - r / 100 == if (r + 1) % 100 == 0 then 1 else 0;
  }

  lemma {:induction false} NextDayCounts(d: Date)
    requires OnCalendar(d)
    ensures DayNumber(NextDay(d)) == DayNumber(d) + 1
  {
    if d.day == MonthLength(d.year, d.month) {
      if d.month == 2 {
        FebruaryEnds(d.year);
      } else {
        MonthEnds(d);
      }
    }
  }

  lemma FebruaryLength(year: nat)
    ensures MonthLength(year, 2) == if IsLeap(year) then 29 else 28
  {
  }

  lemma FirstOfMarch(year: nat)
    ensures DayNumber(Date(year, 3, 1))
         == year / 400 * 146_097 + year % 400 * 365 + year % 400 / 4 - year % 400 / 100 - 719_468
  {
  }

  /** January and February belong to the year before, which ends with them. */
  lemma OfFebruary(year: nat, day: nat)
    requires year > 0
    ensures var y := year - 1;
            DayNumber(Date(year, 2, day))
            == y / 400 * 146_097 + y % 400 * 365 + y % 400 / 4 - y % 400 / 100 + 336 + day - 719_468
  {
  }

  lemma FebruaryEnds(year: nat)
    requires year >= 1970
    ensures DayNumber(Date(year, 3, 1)) == DayNumber(Date(year, 2, MonthLength(year, 2))) + 1
  {
    hide IsLeap, MonthLength, DayNumber;
    FebruaryLength(year);
    FirstOfMarch(year);
    OfFebruary(year, MonthLength(year, 2));
    NewYearOfEra(year - 1);
  }

  lemma MonthEnds(d: Date)
    requires OnCalendar(d) && d.month != 2 && d.day == MonthLength(d.year, d.month)
    ensures DayNumber(NextDay(d)) == DayNumber(d) + 1
  {
    hide IsLeap, MonthLength;
    MonthLengths(d.year, d.month);
    if d.month == 12 {
    } else {
      MonthStarts(d.month);
    }
  }

  lemma MonthLengths(year: nat, month: nat)
    requires 1 <= month <= 12 && month != 2
    ensures MonthLength(year, month) == if month == 4 || month == 6 || month == 9 || month == 11 then 30 else 31
  {
  }

  /** Where the months start, counted from March. */
  lemma MonthStarts(m: nat)
    requires 1 <= m <= 11 && m != 2
    ensures (153 * (if m + 1 > 2 then m - 2 else m + 10) + 2) / 5 - (153 * (if m > 2 then m - 3 else m + 9) + 2) / 5
         == if m == 4 || m == 6 || m == 9 || m == 11 then 30 else 31
  {
  }

  lemma {:induction false} DayNumberCounts(n: nat)
    ensures DayNumber(DayAfterEpoch(n)) == n
  {
    EpochIsZero();
    hide DayNumber, NextDay;
    if n > 0 {
      DayNumberCounts(n - 1);
      NextDayCounts(DayAfterEpoch(n - 1));
    }
  }

  lemma EpochIsZero()
    ensures DayNumber(Date(1970, 1, 1)) == 0
  {
  }

  /** Every date on the calendar is reached by counting, after as many days as its number. */
  lemma {:induction false} EveryDateIsCounted(d: Date)
    requires OnCalendar(d)
    ensures DayNumber(d) >= 0 && DayAfterEpoch(DayNumber(d)) == d
    decreases d.year, d.month, d.day
  {
    EpochIsZero();
    hide DayNumber;
    if d != Date(1970, 1, 1) {
      var before :=
        if d.day > 1 then Date(d.year, d.month, d.day - 1)
        else if d.month > 1 then Date(d.year, d.month - 1, MonthLength(d.year, d.month - 1))
        else Date(d.year - 1, 12, 31);
      EveryDateIsCounted(before);
      NextDayCounts(before);
      assert NextDay(before) == d;
    }
  }

  // --------------------------------------------------------------- reading it back

  function TimeOfDay(s: nat): Time
    requires s < 86_400
  {
    Time(s / 3_600, s / 60 % 60, s % 60)
  }

  /** The date and time that `seconds` after the epoch are. */
  function Civil(seconds: nat): (Date, Time) {
    (DayAfterEpoch(seconds / 86_400), TimeOfDay(seconds % 86_400))
  }

  lemma AcceptedIsNotNegative(d: Date)
    requires d.year >= 1970 && 1 <= d.month <= 12 && 1 <= d.day
    ensures DayNumber(d) == DayNumber(Date(d.year, d.month, 1)) + d.day - 1 >= 0
  {
    EveryDateIsCounted(Date(d.year, d.month, 1));
  }

  /** What a time of day is read back as is a real one. */
  lemma CivilIsReal(seconds: nat)
    ensures OnCalendar(Civil(seconds).0) && Civil(seconds).1.second < 60
  {
    hide OnCalendar;
  }

  lemma CivilOf(n: nat, t: Time)
    requires t.hour < 24 && t.minute < 60 && t.second < 60
    ensures Civil(n * 86_400 + t.hour * 3_600 + t.minute * 60 + t.second) == (DayAfterEpoch(n), t)
  {
    hide DayAfterEpoch, TimeOfDay;
    SecondsSplit(n, t);
  }

  lemma SecondsOf(d: Date, t: Time)
    requires UnixSeconds(d, t).Some?
    ensures d.year >= 1970 && 1 <= d.month <= 12 && 1 <= d.day && t.hour < 24 && t.minute < 60
    ensures UnixSeconds(d, t).value == DayNumber(d) * 86_400 + t.hour * 3_600 + t.minute * 60 + t.second
  {
    hide DayNumber;
  }

  /** A reading that is accepted names itself exactly when its date is on the calendar and
      its second is not a sixtieth; 31 February and 23:59:60 are accepted and name others. */
  lemma AcceptedReadingNamesItselfIff(d: Date, t: Time)
    requires UnixSeconds(d, t).Some?
    ensures UnixSeconds(d, t).value >= 0
    ensures Civil(UnixSeconds(d, t).value) == (d, t) <==> OnCalendar(d) && t.second < 60
  {
    hide DayNumber, DayAfterEpoch, Civil, OnCalendar, UnixSeconds;
    SecondsOf(d, t);
    AcceptedIsNotNegative(d);
    CivilIsReal(UnixSeconds(d, t).value);
    if OnCalendar(d) && t.second < 60 {
      EveryDateIsCounted(d);
      CivilOf(DayNumber(d), t);
    }
  }

  lemma SecondsSplit(n: nat, t: Time)
    requires t.hour < 24 && t.minute < 60 && t.second < 60
    ensures var s := t.hour * 3_600 + t.minute * 60 + t.second;
            && s < 86_400
            && (n * 86_400 + s) / 86_400 == n && (n * 86_400 + s) % 86_400 == s
            && TimeOfDay(s) == t
  {
    var s := t.hour * 3_600 + t.minute * 60 + t.second;
    assert s / 60 == t.hour * 60 + t.minute;
  }

  /** What is accepted: every date on the calendar with every time of day, a leap second
      included; and beyond those, of the days up to the 31st in every month, those that are not. */
  lemma AcceptedIff(d: Date, t: Time)
    ensures UnixSeconds(d, t).Some? <==>
            && t.hour < 24 && t.minute < 60 && t.second < 61
            && (OnCalendar(d) || (1970 <= d.year && 1 <= d.month < 12 && MonthLength(d.year, d.month) < d.day <= 31))
  {
    hide DayNumber;
  }

  lemma TwoNamesForADay()
    ensures UnixSeconds(Date(2023, 2, 31), Time(0, 0, 0)).Some?
    ensures UnixSeconds(Date(2023, 2, 31), Time(0, 0, 0)) == UnixSeconds(Date(2023, 3, 3), Time(0, 0, 0))
    ensures UnixSeconds(Date(2023, 3, 3), Time(0, 0, 60)) == UnixSeconds(Date(2023, 3, 3), Time(0, 1, 0))
  {
  }

  predicate DateBefore(a: Date, b: Date) {
    a.year < b.year || (a.year == b.year && (a.month < b.month || (a.month == b.month && a.day < b.day)))
  }

  predicate TimeBefore(a: Time, b: Time) {
    a.hour < b.hour || (a.hour == b.hour && (a.minute < b.minute || (a.minute == b.minute && a.second < b.second)))
  }

  lemma {:induction false} LaterDaysAreLater(m: nat, n: nat)
    requires m < n
    ensures DateBefore(DayAfterEpoch(m), DayAfterEpoch(n))
  {
    if m < n - 1 {
      LaterDaysAreLater(m, n - 1);
    }
  }

  /** Real dates and times come out in the order they have, and different. */
  lemma {:induction false} OrderIsKept(a: Date, s: Time, b: Date, t: Time)
    requires UnixSeconds(a, s).Some? && OnCalendar(a) && s.second < 60
    requires UnixSeconds(b, t).Some? && OnCalendar(b) && t.second < 60
    ensures UnixSeconds(a, s).value < UnixSeconds(b, t).value
            <==> DateBefore(a, b) || (a == b && TimeBefore(s, t))
  {
    hide DayNumber, DayAfterEpoch, OnCalendar, UnixSeconds;
    SecondsOf(a, s);
    SecondsOf(b, t);
    EveryDateIsCounted(a);
    EveryDateIsCounted(b);
    var m, n := DayNumber(a), DayNumber(b);
    if m < n {
      LaterDaysAreLater(m, n);
    } else if n < m {
      LaterDaysAreLater(n, m);
    }
  }
}
