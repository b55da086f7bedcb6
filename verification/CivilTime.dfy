/**
 * Gregorian civil time, as `gmtime_r` and `timegm` compute it (section 4.16 of
 * the Base Definitions of POSIX.1-2017, extended to all years). Days and
 * seconds count from 1970-01-01T00:00:00Z; months count from 0.
 */
module CivilTime {

  datatype Date = Date(year: int, month: int, day: int)

  datatype BrokenDown = BrokenDown(date: Date, hour: int, minute: int, second: int, weekday: int)

  predicate IsLeap(year: int) {
    year % 4 == 0 && (year % 100 != 0 || year % 400 == 0)
  }

  function LeapDay(year: int): int {
    if IsLeap(year) then 1 else 0
  }

  /** 1970-01-01, counted from 0001-01-01. */
  const EPOCH_DAY := 719162

  /** Days from 0001-01-01 to the first day of the year. */
  function DaysBeforeYear(year: int): int {
    var y := year - 1;
    365 * y + y / 4 - y / 100 + y / 400
  }

  function DaysInMonth(month: int, leap: int): int {
    if month == 1 then 28 + leap
    else if month == 3 || month == 5 || month == 8 || month == 10 then 30
    else 31
  }

  function DaysBeforeMonth(month: int, leap: int): int
    decreases month
  {
    if month <= 0 then 0 else DaysBeforeMonth(month - 1, leap) + DaysInMonth(month - 1, leap)
  }

  predicate ValidDate(d: Date) {
    0 <= d.month < 12 && 1 <= d.day <= DaysInMonth(d.month, LeapDay(d.year))
  }

  /** Days since the epoch; linear in the day of the month, which need not be in range. */
  function DayNumber(d: Date): int {
    DaysBeforeYear(d.year) + DaysBeforeMonth(d.month, LeapDay(d.year)) + d.day - 1 - EPOCH_DAY
  }

  // ----- from a day number to a date -----

  /** Year (counted from 0) and day of year of a day counted from 0001-01-01, by whole cycles. */
  function YearAndDay(n: int): (int, int) {
    var (c400, r400) := (n / 146097, n % 146097);
    var c100 := if r400 / 36524 < 4 then r400 / 36524 else 3;
    var r100 := r400 - 36524 * c100;
    var (c4, r4) := (r100 / 1461, r100 % 1461);
    var c1 := if r4 / 365 < 4 then r4 / 365 else 3;
    (400 * c400 + 100 * c100 + 4 * c4 + c1, r4 - 365 * c1)
  }

  /** The month that contains a day of the year, searching from `month` on. */
  function MonthOf(yday: int, leap: int, month: int): int
    requires 0 <= month < 12
    decreases 12 - month
  {
    if month == 11 || yday < DaysBeforeMonth(month + 1, leap) then month else MonthOf(yday, leap, month + 1)
  }

  function DateOf(dayNumber: int): Date {
    var (y, yday) := YearAndDay(dayNumber + EPOCH_DAY);
    var leap := LeapDay(y + 1);
    var month := MonthOf(yday, leap, 0);
    Date(y + 1, month, yday - DaysBeforeMonth(month, leap) + 1)
  }

  function GmTime(t: int): BrokenDown {
    var (days, s) := (t / 86400, t % 86400);
    BrokenDown(DateOf(days), s / 3600, s / 60 % 60, s % 60, (days + 4) % 7)
  }

  /** `timegm` for a month in range; day, hour, minute and second may lie outside theirs. */
  function TimeGm(date: Date, hour: int, minute: int, second: int): int {
    86400 * DayNumber(date) + 3600 * hour + 60 * minute + second
  }

  // ----- the two are inverse -----

  lemma CycleFacts(a: int, b: int, c: int, e: int)
    requires 0 <= b <= 3 && 0 <= c <= 24 && 0 <= e <= 3
    ensures var y := 400 * a + 100 * b + 4 * c + e;
            && y / 4 == 100 * a + 25 * b + c && y / 100 == 4 * a + b && y / 400 == a
            && (IsLeap(y + 1) <==> e == 3 && (c != 24 || b == 3))
  {
    var y := 400 * a + 100 * b + 4 * c + e;
    assert y == 4 * (100 * a + 25 * b + c) + e;
    assert y == 100 * (4 * a + b) + (4 * c + e);
    assert y == 400 * a + (100 * b + 4 * c + e);
  }

  lemma YearAndDayCorrect(n: int)
    ensures var (y, yday) := YearAndDay(n);
            DaysBeforeYear(y + 1) + yday == n && 0 <= yday < 365 + LeapDay(y + 1)
  {
    hide DaysBeforeYear, LeapDay;
    var (c400, r400) := (n / 146097, n % 146097);
    var c100 := if r400 / 36524 < 4 then r400 / 36524 else 3;
    var r100 := r400 - 36524 * c100;
    var (c4, r4) := (r100 / 1461, r100 % 1461);
    var c1 := if r4 / 365 < 4 then r4 / 365 else 3;
    CyclesCorrect(c400, c100, c4, c1, r4 - 365 * c1);
  }

  lemma CyclesCorrect(a: int, b: int, c: int, e: int, yday: int)
    requires 0 <= b <= 3 && 0 <= c <= 24 && 0 <= e <= 3 && 0 <= yday
    requires yday < 365 || (yday == 365 && e == 3 && (c != 24 || b == 3))
    ensures DaysBeforeYear(400 * a + 100 * b + 4 * c + e + 1) == 146097 * a + 36524 * b + 1461 * c + 365 * e
    ensures yday < 365 + LeapDay(400 * a + 100 * b + 4 * c + e + 1)
  {
    hide IsLeap;
    CycleFacts(a, b, c, e);
  }

  lemma MonthTable(leap: int)
    requires leap == 0 || leap == 1
    ensures DaysBeforeMonth(0, leap) == 0 && DaysBeforeMonth(1, leap) == 31
    ensures DaysBeforeMonth(2, leap) == 59 + leap && DaysBeforeMonth(3, leap) == 90 + leap
    ensures DaysBeforeMonth(4, leap) == 120 + leap && DaysBeforeMonth(5, leap) == 151 + leap
    ensures DaysBeforeMonth(6, leap) == 181 + leap && DaysBeforeMonth(7, leap) == 212 + leap
    ensures DaysBeforeMonth(8, leap) == 243 + leap && DaysBeforeMonth(9, leap) == 273 + leap
    ensures DaysBeforeMonth(10, leap) == 304 + leap && DaysBeforeMonth(11, leap) == 334 + leap
    ensures DaysBeforeMonth(12, leap) == 365 + leap
  {
    assert DaysBeforeMonth(3, leap) == 90 + leap;
    assert DaysBeforeMonth(6, leap) == 181 + leap;
    assert DaysBeforeMonth(9, leap) == 273 + leap;
  }

  lemma {:induction false} MonthOfCorrect(yday: int, leap: int, month: int)
    requires 0 <= month < 12 && (leap == 0 || leap == 1)
    requires DaysBeforeMonth(month, leap) <= yday < 365 + leap
    ensures var m := MonthOf(yday, leap, month);
            month <= m < 12 && DaysBeforeMonth(m, leap) <= yday < DaysBeforeMonth(m + 1, leap)
    decreases 12 - month
  {
    if month == 11 {
      MonthTable(leap);
    } else if yday >= DaysBeforeMonth(month + 1, leap) {
      MonthOfCorrect(yday, leap, month + 1);
    }
  }

  /** Every day number is the number of a valid date: the one computed for it. */
  lemma DateOfCorrect(n: int)
    ensures ValidDate(DateOf(n)) && DayNumber(DateOf(n)) == n
  {
    hide YearAndDay, MonthOf, DaysBeforeYear;
    var (y, yday) := YearAndDay(n + EPOCH_DAY);
    YearAndDayCorrect(n + EPOCH_DAY);
    var leap := LeapDay(y + 1);
    MonthOfCorrect(yday, leap, 0);
    var m := MonthOf(yday, leap, 0);
    assert DaysBeforeMonth(m + 1, leap) == DaysBeforeMonth(m, leap) + DaysInMonth(m, leap);
  }

  lemma QuotientStep(y: int, k: int)
    requires k == 4 || k == 100 || k == 400
    ensures y / k - (y - 1) / k == if y % k == 0 then 1 else 0
  {
    if k == 4 {
    } else if k == 100 {
    } else {
    }
  }

  lemma LeapCount(year: int)
    ensures LeapDay(year) == (if year % 4 == 0 then 1 else 0) - (if year % 100 == 0 then 1 else 0)
                             + (if year % 400 == 0 then 1 else 0)
  {
    if year % 400 == 0 {
      assert year == 100 * (4 * (year / 400));
    }
    if year % 100 == 0 {
      assert year == 4 * (25 * (year / 100));
    }
  }

  lemma YearLength(year: int)
    ensures DaysBeforeYear(year + 1) == DaysBeforeYear(year) + 365 + LeapDay(year)
  {
    hide LeapDay;
    LeapCount(year);
    QuotientStep(year, 4);
    QuotientStep(year, 100);
    QuotientStep(year, 400);
  }

  lemma {:induction false} YearsApart(y1: int, y2: int)
    requires y1 < y2
    ensures DaysBeforeYear(y1) + 365 + LeapDay(y1) <= DaysBeforeYear(y2)
    decreases y2 - y1
  {
    hide DaysBeforeYear, IsLeap;
    YearLength(y1);
    if y1 + 1 < y2 {
      YearsApart(y1 + 1, y2);
    }
  }

  lemma {:induction false} MonthsApart(m1: int, m2: int, leap: int)
    requires 0 <= m1 < m2 && leap >= 0
    ensures DaysBeforeMonth(m1, leap) + DaysInMonth(m1, leap) <= DaysBeforeMonth(m2, leap)
    decreases m2 - m1
  {
    if m1 + 1 < m2 {
      MonthsApart(m1 + 1, m2, leap);
    }
  }

  lemma DayOfYearBounds(d: Date)
    requires ValidDate(d)
    ensures 0 <= DaysBeforeMonth(d.month, LeapDay(d.year)) + d.day - 1 < 365 + LeapDay(d.year)
  {
    hide IsLeap;
    var leap := LeapDay(d.year);
    MonthTable(leap);
    MonthsApart(d.month, 12, leap);
    if d.month > 0 {
      MonthsApart(0, d.month, leap);
    }
  }

  /** Different valid dates have different numbers. */
  lemma DayNumberInjective(a: Date, b: Date)
    requires ValidDate(a) && ValidDate(b) && DayNumber(a) == DayNumber(b)
    ensures a == b
  {
    hide DaysBeforeYear, IsLeap, DaysBeforeMonth;
    DayOfYearBounds(a);
    DayOfYearBounds(b);
    if a.year < b.year {
      YearsApart(a.year, b.year);
    } else if b.year < a.year {
      YearsApart(b.year, a.year);
    } else if a.month < b.month {
      MonthsApart(a.month, b.month, LeapDay(a.year));
    } else if b.month < a.month {
      MonthsApart(b.month, a.month, LeapDay(a.year));
    }
  }

  /** Date to number to date. */
  lemma DateOfDayNumber(d: Date)
    requires ValidDate(d)
    ensures DateOf(DayNumber(d)) == d
  {
    DateOfCorrect(DayNumber(d));
    DayNumberInjective(DateOf(DayNumber(d)), d);
  }

  /** `timegm` undoes `gmtime_r` for every time. */
  lemma TimeGmOfGmTime(t: int)
    ensures var b := GmTime(t);
            && TimeGm(b.date, b.hour, b.minute, b.second) == t
            && ValidDate(b.date) && 0 <= b.hour < 24 && 0 <= b.minute < 60 && 0 <= b.second < 60
            && 0 <= b.weekday < 7
  {
    hide DateOf, DayNumber, ValidDate;
    DateOfCorrect(t / 86400);
    var s := t % 86400;
    assert s / 60 == 60 * (s / 3600) + s / 60 % 60;
    assert s == 60 * (s / 60) + s % 60;
  }

  // ----- independent references -----

  /** The year part of the POSIX "seconds since the Epoch" expression, `tm_year` counting from 1900. */
  lemma PosixYearTerm(tmYear: int)
    ensures DaysBeforeYear(tmYear + 1900) - EPOCH_DAY
            == 365 * (tmYear - 70) + (tmYear - 69) / 4 - (tmYear - 1) / 100 + (tmYear + 299) / 400
  {
    var y := tmYear + 1899;
    assert y / 4 == (tmYear - 69) / 4 + 492;
    assert y / 100 == (tmYear - 1) / 100 + 19;
    assert y / 400 == (tmYear + 299) / 400 + 4;
  }

  /** The day of the year, from 0. */
  function YearDay(d: Date): int {
    DaysBeforeMonth(d.month, LeapDay(d.year)) + d.day - 1
  }

  /** The POSIX "seconds since the Epoch" expression on broken-down time. */
  function PosixSeconds(b: BrokenDown): int {
    var tmYear := b.date.year - 1900;
    b.second + b.minute * 60 + b.hour * 3600 + YearDay(b.date) * 86400
    + (tmYear - 70) * 31536000 + (tmYear - 69) / 4 * 86400 - (tmYear - 1) / 100 * 86400 + (tmYear + 299) / 400 * 86400
  }

  /** The broken-down time of `t` has `t` seconds since the Epoch, within its year. */
  lemma PosixSecondsOfGmTime(t: int)
    ensures var b := GmTime(t);
            PosixSeconds(b) == t && 0 <= YearDay(b.date) < 365 + LeapDay(b.date.year)
  {
    hide GmTime, DaysBeforeYear, DaysBeforeMonth, LeapDay;
    var b := GmTime(t);
    TimeGmOfGmTime(t);
    PosixYearTerm(b.date.year - 1900);
    DayOfYearBounds(b.date);
  }

  const MONTH_OFFSETS := [0, 3, 2, 5, 0, 3, 5, 1, 4, 6, 2, 4]

  /** Sakamoto's day-of-week sum on the civil date. */
  function WeekdaySum(d: Date): int
    requires 0 <= d.month < 12
  {
    var y := if d.month < 2 then d.year - 1 else d.year;
    y + y / 4 - y / 100 + y / 400 + MONTH_OFFSETS[d.month] + d.day
  }

  /** The calendar's weekday, 0 for Sunday. */
  function WeekdayOf(d: Date): int
    requires 0 <= d.month < 12
  {
    WeekdaySum(d) % 7
  }

  lemma YearTerms(year: int)
    ensures (year / 4 - year / 100 + year / 400) - ((year - 1) / 4 - (year - 1) / 100 + (year - 1) / 400) == LeapDay(year)
  {
    hide LeapDay;
    LeapCount(year);
    QuotientStep(year, 4);
    QuotientStep(year, 100);
    QuotientStep(year, 400);
  }

  lemma SameResidue(a: int, b: int, k: int)
    requires a == b + 7 * k
    ensures a % 7 == b % 7
  {
  }

  lemma DayNumberTerms(d: Date, terms: int)
    requires terms == (d.year - 1) / 4 - (d.year - 1) / 100 + (d.year - 1) / 400
    ensures DayNumber(d) + 4 == 7 * (52 * (d.year - 1)) + d.year - 1 + terms + MonthDays(d)
  {
    hide DaysBeforeMonth, LeapDay;
  }

  lemma WeekdaySumTerms(d: Date, terms: int)
    requires 0 <= d.month < 12
    requires terms == (d.year - 1) / 4 - (d.year - 1) / 100 + (d.year - 1) / 400
    ensures WeekdaySum(d) == d.year - 1 + terms + MonthOffset(d)
  {
    hide LeapDay;
    YearTerms(d.year);
  }

  /** The month's share of `DayNumber(d) + 4`. */
  function MonthDays(d: Date): int {
    DaysBeforeMonth(d.month, LeapDay(d.year)) + d.day - 1 - EPOCH_DAY + 4
  }

  /** The month's share of the weekday sum, relative to the preceding year. */
  function MonthOffset(d: Date): int
    requires 0 <= d.month < 12
  {
    (if d.month < 2 then 0 else 1 + LeapDay(d.year)) + MONTH_OFFSETS[d.month] + d.day
  }

  /** The weekday `gmtime_r` reports is the calendar's weekday of the date it reports. */
  lemma WeekdayIsRight(d: Date)
    requires ValidDate(d)
    ensures (DayNumber(d) + 4) % 7 == WeekdayOf(d)
  {
    hide DayNumber, WeekdaySum, IsLeap, LeapDay, MonthDays, MonthOffset, DaysBeforeMonth;
    var y := d.year - 1;
    var terms := y / 4 - y / 100 + y / 400;
    DayNumberTerms(d, terms);
    WeekdaySumTerms(d, terms);
    MonthShift(d);
    SameResidue(DayNumber(d) + 4, WeekdaySum(d), 52 * y + (MonthDays(d) - MonthOffset(d)) / 7);
  }

  lemma MonthShift(d: Date)
    requires 0 <= d.month < 12
    ensures MonthDays(d) - MonthOffset(d) == 7 * ((MonthDays(d) - MonthOffset(d)) / 7)
  {
    hide IsLeap, DaysBeforeMonth;
    MonthTable(LeapDay(d.year));
  }
}
