/** utils/datetime.rs: timestamps as calendar text. */
module Calendar {
  import opened Bytes

  // ---- Rust's truncating operators ----

  function Quot(a: int, b: int): (q: int)
    requires b > 0
  {
    if a >= 0 then a / b else -(-a / b)
  }

  function Rem(a: int, b: int): (r: int)
    requires b > 0
  {
    a - b * Quot(a, b)
  }

  // ---- The conversion ----

  datatype Parts = Parts(year: i64, month: i64, day: i64, hour: i64, minute: i64, second: i64)

  // Every local below is an `i64`, so the verifier also shows that no intermediate result overflows.

  function TimestampToParts(timestamp: i64): (p: Parts)
  {
    var quotDays: i64 := Quot(timestamp, 86400);
    var daySecs: i64 := Rem(Rem(timestamp, 86400) + 86400, 86400);
    var days: i64 := if timestamp < 0 && daySecs > 0 then quotDays - 1 else quotDays;
    var civil := CivilFromDays(days);
    Parts(civil.0, civil.1, civil.2,
          Quot(daySecs, 3600), Quot(Rem(daySecs, 3600), 60), Rem(daySecs, 60))
  }

  function CivilFromDays(days: i64): (civil: (i64, i64, i64))
    requires -200_000_000_000_000 < days < 200_000_000_000_000
  {
    var march := MarchDay(days);
    MarchDate(march.0, march.1)
  }

  /** The year and the day of that year, both counted from March 1. */
  function MarchDay(days: i64): (march: (i64, i64))
    requires -200_000_000_000_000 < days < 200_000_000_000_000
    ensures -0x1000_0000_0000_0000 < march.0 < 0x1000_0000_0000_0000
    ensures -0x1000_0000_0000_0000 < march.1 < 0x1000_0000_0000_0000
  {
    var shifted: i64 := days + 719468;
    var era: i64 := Quot(if shifted >= 0 then shifted else shifted - 146096, 146097);
    var (yoe, doy) := YearOfEra(shifted - era * 146097);
    (yoe + era * 400, doy)
  }

  /** The year of a 400-year era and the day of that year. */
  function YearOfEra(doe: i64): (r: (i64, i64))
    requires -0x80_0000_0000_0000 < doe < 0x80_0000_0000_0000
    ensures -0x100_0000_0000_0000 < r.0 < 0x100_0000_0000_0000
    ensures -0x1000_0000_0000_0000 < r.1 < 0x1000_0000_0000_0000
  {
    var yoe: i64 := Quot(doe - Quot(doe, 1460) + Quot(doe, 36524) - Quot(doe, 146096), 365);
    (yoe, doe - (365 * yoe + Quot(yoe, 4) - Quot(yoe, 100)))
  }

  /** The civil date of day `doy` of the year that starts on March 1 of year `y`. */
  function MarchDate(y: i64, doy: i64): (civil: (i64, i64, i64))
    requires -0x1000_0000_0000_0000 < y < 0x1000_0000_0000_0000
    requires -0x1000_0000_0000_0000 < doy < 0x1000_0000_0000_0000
  {
    var mp: i64 := Quot(5 * doy + 2, 153);
    var d: i64 := doy - Quot(153 * mp + 2, 5) + 1;
    var m: i64 := if mp < 10 then mp + 3 else mp - 9;
    (if m <= 2 then y + 1 else y, m, d)
  }

  // ---- An independent calendar: section 5.7 and Appendix C of RFC 3339 ----

  predicate IsLeapYear(year: int)
  {
    year % 4 == 0 && (year % 100 != 0 || year % 400 == 0)
  }

  function DaysInMonth(year: int, month: int): (days: int)
  {
    if month == 2 then if IsLeapYear(year) then 29 else 28
    else if month == 4 || month == 6 || month == 9 || month == 11 then 30
    else 31
  }

  function YearLength(year: int): (days: int)
  {
    if IsLeapYear(year) then 366 else 365
  }

  /** Days from 1970-01-01 to January 1 of `year`, counted year by year in either direction. */
  function DaysBeforeYear(year: int): (days: int)
    decreases if year >= 1970 then year - 1970 else 1970 - year
  {
    if year == 1970 then 0
    else if year > 1970 then DaysBeforeYear(year - 1) + YearLength(year - 1)
    else DaysBeforeYear(year + 1) - YearLength(year)
  }

  function DaysBeforeMonth(year: int, month: int): (days: int)
    decreases month
  {
    if month <= 1 then 0 else DaysBeforeMonth(year, month - 1) + DaysInMonth(year, month - 1)
  }

  function DayNumber(year: int, month: int, day: int): (days: int)
  {
    DaysBeforeYear(year) + DaysBeforeMonth(year, month) + day - 1
  }

  /** The seconds from 1970-01-01 00:00:00 to a date and time of day. */
  function Seconds(p: Parts): (seconds: int)
  {
    DayNumber(p.year, p.month, p.day) * 86400 + p.hour * 3600 + p.minute * 60 + p.second
  }

  predicate LegalDate(year: int, month: int, day: int)
  {
    1 <= month <= 12 && 1 <= day <= DaysInMonth(year, month)
  }

  predicate Legal(p: Parts)
  {
    && LegalDate(p.year, p.month, p.day)
    && 0 <= p.hour < 24 && 0 <= p.minute < 60 && 0 <= p.second < 60
  }

  // ---- Calendar correctness ----

  function LeapDays(year: int): (n: int)
  {
    year / 4 - year / 100 + year / 400
  }

  lemma LeapDaysStep(year: int)
    ensures LeapDays(year) - LeapDays(year - 1) == if IsLeapYear(year) then 1 else 0
  {
    Divisible(year);
    DivStep4(year);
    DivStep100(year);
    DivStep400(year);
  }

  lemma Divisible(n: int)
    ensures n % 400 == 0 ==> n % 100 == 0
    ensures n % 100 == 0 ==> n % 4 == 0
  {
    if n % 400 == 0 {
      Mod100(n, 4 * (n / 400), 0);
    }
    if n % 100 == 0 {
      Mod4(n, 25 * (n / 100), 0);
    }
  }

  lemma DivStep4(n: int)
    ensures n / 4 - (n - 1) / 4 == if n % 4 == 0 then 1 else 0
  {}

  lemma DivStep100(n: int)
    ensures n / 100 - (n - 1) / 100 == if n % 100 == 0 then 1 else 0
  {}

  lemma DivStep400(n: int)
    ensures n / 400 - (n - 1) / 400 == if n % 400 == 0 then 1 else 0
  {}

  lemma {:induction false} DaysBeforeYearClosed(year: int)
    ensures DaysBeforeYear(year) == 365 * (year - 1970) + LeapDays(year - 1) - 477
    decreases if year >= 1970 then year - 1970 else 1970 - year
  {
    if year > 1970 {
      DaysBeforeYearClosed(year - 1);
      LeapDaysStep(year - 1);
    } else if year < 1970 {
      DaysBeforeYearClosed(year + 1);
      LeapDaysStep(year);
    }
  }

  lemma DaysBeforeMonthTable(year: int)
    ensures var leap := if IsLeapYear(year) then 1 else 0;
            && DaysBeforeMonth(year, 1) == 0
            && DaysBeforeMonth(year, 2) == 31
            && DaysBeforeMonth(year, 3) == 59 + leap
            && DaysBeforeMonth(year, 4) == 90 + leap
            && DaysBeforeMonth(year, 5) == 120 + leap
            && DaysBeforeMonth(year, 6) == 151 + leap
            && DaysBeforeMonth(year, 7) == 181 + leap
            && DaysBeforeMonth(year, 8) == 212 + leap
            && DaysBeforeMonth(year, 9) == 243 + leap
            && DaysBeforeMonth(year, 10) == 273 + leap
            && DaysBeforeMonth(year, 11) == 304 + leap
            && DaysBeforeMonth(year, 12) == 334 + leap
            && DaysBeforeMonth(year, 13) == YearLength(year)
  {
    assert DaysBeforeMonth(year, 4) == DaysBeforeMonth(year, 3) + 31;
    assert DaysBeforeMonth(year, 7) == DaysBeforeMonth(year, 6) + 30;
    assert DaysBeforeMonth(year, 10) == DaysBeforeMonth(year, 9) + 30;
  }

  lemma YearOfEraCorrect(doe: i64)
    requires 0 <= doe < 146097
    ensures var (yoe, doy) := YearOfEra(doe);
            && 0 <= yoe < 400 && 0 <= doy <= 365
            && (doy == 365 ==> yoe % 4 == 3 && (yoe % 100 != 99 || yoe == 399))
            && doe == 365 * yoe + yoe / 4 - yoe / 100 + doy
  {
    var yoe, doy := YearOfEraBounds(doe);
    assert YearOfEra(doe) == (yoe, doy);
  }

  lemma YearOfEraBounds(doe: int) returns (yoe: int, doy: int)
    requires 0 <= doe < 146097
    ensures yoe == (doe - doe / 1460 + doe / 36524 - doe / 146096) / 365
    ensures doy == doe - (365 * yoe + yoe / 4 - yoe / 100)
    ensures 0 <= yoe < 400 && 0 <= doy <= 365
    ensures doy == 365 ==> yoe % 4 == 3 && (yoe % 100 != 99 || yoe == 399)
  {
    var century, k := doe / 36524, doe / 1460;
    yoe := (doe - k + century - doe / 146096) / 365;
    doy := doe - (365 * yoe + yoe / 4 - yoe / 100);
    if century == 4 {
      assert doe == 146096;
    } else {
      assert century == 0 || century == 1 || century == 2 || century == 3;
      assert doe / 146096 == 0;
      assert 25 * century <= k <= 25 * century + 25;
      assert 36500 * century <= doe - k + century < 36500 * (century + 1);
      assert yoe / 100 == century;
      assert yoe / 4 <= k <= yoe / 4 + 1;
    }
  }

  lemma MarchDayCorrect(days: i64)
    requires -200_000_000_000_000 < days < 200_000_000_000_000
    ensures var (y, doy) := MarchDay(days);
            && 0 <= doy <= 365 && (doy == 365 ==> IsLeapYear(y + 1))
            && days + 719468 == 365 * y + LeapDays(y) + doy
  {
    hide Quot, YearOfEra, MarchDay, LeapDays, IsLeapYear;
    var shifted := days + 719468;
    var era := shifted / 146097;
    var (yoe, doy) := YearOfEra(shifted - era * 146097);
    MarchDayIs(days, era);
    YearOfEraCorrect(shifted - era * 146097);
    EraLeapDays(era, yoe);
    EraLeapYear(era, yoe);
  }

  lemma MarchDayIs(days: i64, era: int)
    requires -200_000_000_000_000 < days < 200_000_000_000_000 && era == (days + 719468) / 146097
    ensures var doe := days + 719468 - era * 146097;
            && 0 <= doe < 146097
            && MarchDay(days) == (YearOfEra(doe).0 + era * 400, YearOfEra(doe).1)
  {
    hide Quot, YearOfEra;
    EraQuot(days + 719468);
  }

  lemma EraQuot(shifted: int)
    ensures Quot(if shifted >= 0 then shifted else shifted - 146096, 146097) == shifted / 146097
  {}

  lemma MarchDateCorrect(y: i64, doy: i64)
    requires -0x1000_0000_0000_0000 < y < 0x1000_0000_0000_0000
    requires 0 <= doy <= 365 && (doy == 365 ==> IsLeapYear(y + 1))
    ensures var (year, month, day) := MarchDate(y, doy);
            && LegalDate(year, month, day)
            && DayNumber(year, month, day) == 365 * y + LeapDays(y) + doy - 719468
  {
    MonthTable(doy);
    MarchDateNumber(y, doy);
  }

  lemma MarchDateNumber(y: i64, doy: i64)
    requires -0x1000_0000_0000_0000 < y < 0x1000_0000_0000_0000
    requires 0 <= doy <= 365
    ensures var (year, month, day) := MarchDate(y, doy);
            DayNumber(year, month, day) == 365 * y + LeapDays(y) + doy - 719468
  {
    hide DaysBeforeYear, DaysBeforeMonth, LeapDays, IsLeapYear;
    var (year, month, day) := MarchDate(y, doy);
    DaysBeforeYearClosed(year);
    DaysBeforeMonthTable(year);
    LeapDaysStep(y);
    MonthTable(doy);
  }

  lemma CivilCorrect(days: i64)
    requires -200_000_000_000_000 < days < 200_000_000_000_000
    ensures var (year, month, day) := CivilFromDays(days);
            LegalDate(year, month, day) && DayNumber(year, month, day) == days
  {
    MarchDayCorrect(days);
    var (y, doy) := MarchDay(days);
    MarchDateCorrect(y, doy);
  }

  lemma EraLeapDays(era: int, yoe: int)
    requires 0 <= yoe < 400
    ensures LeapDays(yoe + era * 400) == 97 * era + yoe / 4 - yoe / 100
  {
    assert (yoe + era * 400) / 4 == yoe / 4 + era * 100;
    assert (yoe + era * 400) / 100 == yoe / 100 + era * 4;
    assert (yoe + era * 400) / 400 == era;
  }

  lemma EraLeapYear(era: int, yoe: int)
    requires 0 <= yoe < 400
    ensures IsLeapYear(yoe + era * 400 + 1) <==> yoe % 4 == 3 && (yoe % 100 != 99 || yoe == 399)
  {
    var n := yoe + 1;
    var year := n + era * 400;
    EraMod(era, n);
    Next4(yoe);
    Next100(yoe);
    Next400(yoe);
  }

  lemma Next4(k: int)
    ensures (k + 1) % 4 == 0 <==> k % 4 == 3
  {}

  lemma Next100(k: int)
    ensures (k + 1) % 100 == 0 <==> k % 100 == 99
  {}

  lemma Next400(k: int)
    requires 0 <= k < 400
    ensures (k + 1) % 400 == 0 <==> k == 399
  {}

  lemma EraMod(era: int, n: int)
    ensures (n + era * 400) % 4 == n % 4
    ensures (n + era * 400) % 100 == n % 100
    ensures (n + era * 400) % 400 == n % 400
  {
    Mod4(n + era * 400, n / 4 + era * 100, n % 4);
    Mod100(n + era * 400, n / 100 + era * 4, n % 100);
    Mod400(n + era * 400, n / 400 + era, n % 400);
  }

  lemma Mod4(n: int, q: int, r: int)
    requires n == 4 * q + r && 0 <= r < 4
    ensures n % 4 == r
  {}

  lemma Mod100(n: int, q: int, r: int)
    requires n == 100 * q + r && 0 <= r < 100
    ensures n % 100 == r
  {}

  lemma Mod400(n: int, q: int, r: int)
    requires n == 400 * q + r && 0 <= r < 400
    ensures n % 400 == r
  {}

  /** The month arithmetic, month by month, counted from March. */
  lemma MonthTable(doy: int)
    requires 0 <= doy <= 365
    ensures var mp := (5 * doy + 2) / 153;
            && 0 <= mp <= 11
            && var start := (153 * mp + 2) / 5;
            && start <= doy
            && start == [0, 31, 61, 92, 122, 153, 184, 214, 245, 275, 306, 337][mp]
            && (mp < 11 ==> doy < [0, 31, 61, 92, 122, 153, 184, 214, 245, 275, 306, 337][mp + 1])
  {
    var mp := (5 * doy + 2) / 153;
    assert mp == 0 || mp == 1 || mp == 2 || mp == 3 || mp == 4 || mp == 5
        || mp == 6 || mp == 7 || mp == 8 || mp == 9 || mp == 10 || mp == 11;
  }

  /** Every timestamp, negative ones included, becomes a legal Gregorian date that counts back to it. */
  lemma CalendarCorrect(timestamp: i64)
    ensures Legal(TimestampToParts(timestamp))
    ensures Seconds(TimestampToParts(timestamp)) == timestamp
  {
    PartsUnfolded(timestamp);
    CivilCorrect(timestamp / 86400);
    TimeOfDay(timestamp % 86400);
  }

  lemma PartsUnfolded(timestamp: i64)
    ensures var (year, month, day) := CivilFromDays(timestamp / 86400);
            var daySecs := timestamp % 86400;
            TimestampToParts(timestamp)
            == Parts(year, month, day, daySecs / 3600, daySecs % 3600 / 60, daySecs % 60)
  {
    SplitDays(timestamp);
  }

  lemma TimeOfDay(daySecs: int)
    requires 0 <= daySecs < 86400
    ensures 0 <= daySecs / 3600 < 24 && 0 <= daySecs % 3600 / 60 < 60
    ensures daySecs / 3600 * 3600 + daySecs % 3600 / 60 * 60 + daySecs % 60 == daySecs
  {
    var hour, rest := daySecs / 3600, daySecs % 3600;
    assert daySecs == 60 * (60 * hour) + rest;
    assert rest % 60 == daySecs % 60;
  }

  lemma SplitDays(timestamp: i64)
    ensures var daySecs := Rem(Rem(timestamp, 86400) + 86400, 86400);
            && daySecs == timestamp % 86400
            && (if timestamp < 0 && daySecs > 0 then Quot(timestamp, 86400) - 1 else Quot(timestamp, 86400))
               == timestamp / 86400
  {
  }

  // ---- The conversion is an order isomorphism ----

  predicate DateLess(y1: int, m1: int, d1: int, y2: int, m2: int, d2: int)
  {
    y1 < y2 || (y1 == y2 && (m1 < m2 || (m1 == m2 && d1 < d2)))
  }

  /** Field-by-field order of dates and times, most significant field first. */
  predicate PartsLess(p: Parts, q: Parts)
  {
    || DateLess(p.year, p.month, p.day, q.year, q.month, q.day)
    || (p.year == q.year && p.month == q.month && p.day == q.day
        && DateLess(p.hour, p.minute, p.second, q.hour, q.minute, q.second))
  }

  lemma {:induction false} YearsAddUp(y1: int, y2: int)
    requires y1 < y2
    ensures DaysBeforeYear(y1) + YearLength(y1) <= DaysBeforeYear(y2)
    decreases y2 - y1
  {
    DaysBeforeYearClosed(y2);
    DaysBeforeYearClosed(y2 - 1);
    LeapDaysStep(y2 - 1);
    if y1 + 1 < y2 {
      YearsAddUp(y1, y2 - 1);
    }
  }

  lemma {:induction false} MonthsAddUp(year: int, m1: int, m2: int)
    requires 1 <= m1 < m2
    ensures DaysBeforeMonth(year, m1) + DaysInMonth(year, m1) <= DaysBeforeMonth(year, m2)
    decreases m2
  {
    if m1 + 1 < m2 {
      MonthsAddUp(year, m1, m2 - 1);
    }
  }

  lemma DayNumberMonotone(y1: int, m1: int, d1: int, y2: int, m2: int, d2: int)
    requires LegalDate(y1, m1, d1) && LegalDate(y2, m2, d2)
    requires DateLess(y1, m1, d1, y2, m2, d2)
    ensures DayNumber(y1, m1, d1) < DayNumber(y2, m2, d2)
  {
    DaysBeforeMonthTable(y1);
    DaysBeforeMonthTable(y2);
    if y1 < y2 {
      YearsAddUp(y1, y2);
      MonthsAddUp(y1, m1, 13);
    } else if m1 < m2 {
      MonthsAddUp(y1, m1, m2);
    }
  }

  lemma SecondsMonotone(p: Parts, q: Parts)
    requires Legal(p) && Legal(q) && PartsLess(p, q)
    ensures Seconds(p) < Seconds(q)
  {
    if DateLess(p.year, p.month, p.day, q.year, q.month, q.day) {
      DayNumberMonotone(p.year, p.month, p.day, q.year, q.month, q.day);
    }
  }

  lemma SecondsOrder(p: Parts, q: Parts)
    requires Legal(p) && Legal(q)
    ensures Seconds(p) < Seconds(q) <==> PartsLess(p, q)
    ensures Seconds(p) == Seconds(q) <==> p == q
  {
    if PartsLess(p, q) {
      SecondsMonotone(p, q);
    } else if PartsLess(q, p) {
      SecondsMonotone(q, p);
    }
  }

  /** The conversion has an inverse: a legal date and time is the image of its own second count. */
  lemma CalendarInverse(p: Parts)
    requires Legal(p) && -0x8000_0000_0000_0000 <= Seconds(p) < 0x8000_0000_0000_0000
    ensures TimestampToParts(Seconds(p)) == p
  {
    CalendarCorrect(Seconds(p));
    SecondsOrder(TimestampToParts(Seconds(p)), p);
  }
}
