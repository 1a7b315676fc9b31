/** Calendar arithmetic on the proleptic Gregorian calendar, as ECMAScript
    `Date` does it in UTC: a civil date, its successor and predecessor, and
    the day numbers of ECMA-262 section 21.4.1 (days since 1970-01-01). */
module Calendar {

  datatype CivilDate = CivilDate(year: int, month: int, day: int)

  predicate IsLeapYear(y: int)
  {
    (y % 4 == 0 && y % 100 != 0) || y % 400 == 0
  }

  function DaysInYear(y: int): int
  {
    if IsLeapYear(y) then 366 else 365
  }

  function DaysInMonth(y: int, m: int): int
    requires 1 <= m <= 12
  {
    if m == 2 then (if IsLeapYear(y) then 29 else 28)
    else if m == 4 || m == 6 || m == 9 || m == 11 then 30
    else 31
  }

  /** A day that exists: month 1..12 and day within that month. */
  predicate IsCalendarDate(d: CivilDate)
  {
    1 <= d.month <= 12 && 1 <= d.day <= DaysInMonth(d.year, d.month)
  }

  /** The following calendar day, rolling over month and year ends. */
  function NextDay(d: CivilDate): (r: CivilDate)
    requires IsCalendarDate(d)
    ensures IsCalendarDate(r)
  {
    if d.day < DaysInMonth(d.year, d.month) then d.(day := d.day + 1)
    else if d.month < 12 then CivilDate(d.year, d.month + 1, 1)
    else CivilDate(d.year + 1, 1, 1)
  }

  /** The preceding calendar day, rolling back over month and year starts. */
  function PrevDay(d: CivilDate): (r: CivilDate)
    requires IsCalendarDate(d)
    ensures IsCalendarDate(r)
  {
    if d.day > 1 then d.(day := d.day - 1)
    else if d.month > 1 then CivilDate(d.year, d.month - 1, DaysInMonth(d.year, d.month - 1))
    else CivilDate(d.year - 1, 12, 31)
  }

  lemma NextPrevInverse(d: CivilDate)
    requires IsCalendarDate(d)
    ensures PrevDay(NextDay(d)) == d
    ensures NextDay(PrevDay(d)) == d
  {
  }

  /** `n` days later (earlier when `n` is negative), one day at a time. */
  function ShiftDays(d: CivilDate, n: int): (r: CivilDate)
    requires IsCalendarDate(d)
    ensures IsCalendarDate(r)
    decreases if n >= 0 then n else -n
  {
    if n == 0 then d
    else if n > 0 then ShiftDays(NextDay(d), n - 1)
    else ShiftDays(PrevDay(d), n + 1)
  }

  /** ECMA-262 DayFromYear: the day number of January 1st of `y`
      (`/` on a positive divisor is floor division, as the standard asks). */
  function DayFromYear(y: int): int
  {
    365 * (y - 1970) + (y - 1969) / 4 - (y - 1901) / 100 + (y - 1601) / 400
  }

  /** Days of the year before the first of month `m`: ECMA-262's month
      boundaries 0, 31, 59+leap, 90+leap, ... */
  function MonthStart(y: int, m: int): int
    requires 1 <= m <= 12
  {
    var leap := if IsLeapYear(y) then 1 else 0;
    if m == 1 then 0
    else if m == 2 then 31
    else if m == 3 then 59 + leap
    else if m == 4 then 90 + leap
    else if m == 5 then 120 + leap
    else if m == 6 then 151 + leap
    else if m == 7 then 181 + leap
    else if m == 8 then 212 + leap
    else if m == 9 then 243 + leap
    else if m == 10 then 273 + leap
    else if m == 11 then 304 + leap
    else 334 + leap
  }

  /** The ECMA-262 day number (days since 1970-01-01) of a calendar date. */
  function DayNumber(d: CivilDate): int
    requires IsCalendarDate(d)
  {
    DayFromYear(d.year) + MonthStart(d.year, d.month) + d.day - 1
  }

  lemma EpochIsDayZero()
    ensures DayNumber(CivilDate(1970, 1, 1)) == 0
  {
  }

  /** Consecutive years start `DaysInYear` apart. */
  lemma DayFromYearStep(y: int)
    ensures DayFromYear(y + 1) == DayFromYear(y) + DaysInYear(y)
  {
    FourYearStep(y);
    CenturyStep(y);
    FourCenturyStep(y);
  }

  /** Each leap-year count in `DayFromYear` steps up by one exactly at a
      multiple of its period. */
  lemma FourYearStep(y: int)
    ensures (y - 1968) / 4 - (y - 1969) / 4 == if y % 4 == 0 then 1 else 0
  {
  }

  lemma CenturyStep(y: int)
    ensures (y - 1900) / 100 - (y - 1901) / 100 == if y % 100 == 0 then 1 else 0
  {
  }

  lemma FourCenturyStep(y: int)
    ensures (y - 1600) / 400 - (y - 1601) / 400 == if y % 400 == 0 then 1 else 0
  {
  }

  lemma MonthStartStep(y: int, m: int)
    requires 1 <= m < 12
    ensures MonthStart(y, m + 1) == MonthStart(y, m) + DaysInMonth(y, m)
  {
  }

  /** The successor is exactly one day number later. */
  lemma DayNumberNext(d: CivilDate)
    requires IsCalendarDate(d)
    ensures DayNumber(NextDay(d)) == DayNumber(d) + 1
  {
    if d.day < DaysInMonth(d.year, d.month) {
    } else if d.month < 12 {
      MonthStartStep(d.year, d.month);
    } else {
      DayFromYearStep(d.year);
    }
  }

  /** The predecessor is exactly one day number earlier. */
  lemma DayNumberPrev(d: CivilDate)
    requires IsCalendarDate(d)
    ensures DayNumber(PrevDay(d)) == DayNumber(d) - 1
  {
    NextPrevInverse(d);
    DayNumberNext(PrevDay(d));
  }

  lemma {:induction false} ShiftForwardDayNumber(d: CivilDate, n: int)
    requires IsCalendarDate(d) && n >= 0
    ensures DayNumber(ShiftDays(d, n)) == DayNumber(d) + n
    decreases n
  {
    if n > 0 {
      var e := NextDay(d);
      assert ShiftDays(d, n) == ShiftDays(e, n - 1);
      DayNumberNext(d);
      ShiftForwardDayNumber(e, n - 1);
    }
  }

  lemma {:induction false} ShiftBackDayNumber(d: CivilDate, n: int)
    requires IsCalendarDate(d) && n >= 0
    ensures DayNumber(ShiftDays(d, -n)) == DayNumber(d) - n
    decreases n
  {
    if n > 0 {
      var e := PrevDay(d);
      assert ShiftDays(d, -n) == ShiftDays(e, -(n - 1));
      DayNumberPrev(d);
      ShiftBackDayNumber(e, n - 1);
    }
  }

  /** Shifting by `n` days moves the day number by exactly `n`. */
  lemma ShiftDaysDayNumber(d: CivilDate, n: int)
    requires IsCalendarDate(d)
    ensures DayNumber(ShiftDays(d, n)) == DayNumber(d) + n
  {
    if n >= 0 {
      ShiftForwardDayNumber(d, n);
    } else {
      ShiftBackDayNumber(d, -n);
    }
  }

  /** A date lies within its year: its offset is in [0, DaysInYear). */
  lemma DayOfYearBounds(d: CivilDate)
    requires IsCalendarDate(d)
    ensures 0 <= MonthStart(d.year, d.month) + d.day - 1 < DaysInYear(d.year)
  {
  }

  lemma {:induction false} MonthStartIncreasing(y: int, m1: int, m2: int)
    requires 1 <= m1 < m2 <= 12
    ensures MonthStart(y, m1) + DaysInMonth(y, m1) <= MonthStart(y, m2)
    decreases m2 - m1
  {
    MonthStartStep(y, m1);
    if m1 + 1 < m2 {
      MonthStartIncreasing(y, m1 + 1, m2);
    }
  }

  lemma {:induction false} DayFromYearIncreasing(y1: int, y2: int)
    requires y1 < y2
    ensures DayFromYear(y1) + DaysInYear(y1) <= DayFromYear(y2)
    decreases y2 - y1
  {
    DayFromYearStep(y1);
    if y1 + 1 < y2 {
      DayFromYearIncreasing(y1 + 1, y2);
    }
  }

  /** Calendar order: earlier year, or same year and earlier month, or same
      month and earlier day. */
  predicate Before(a: CivilDate, b: CivilDate)
  {
    a.year < b.year
    || (a.year == b.year && a.month < b.month)
    || (a.year == b.year && a.month == b.month && a.day < b.day)
  }

  /** Day numbers strictly increase along the calendar. */
  lemma DayNumberMonotone(a: CivilDate, b: CivilDate)
    requires IsCalendarDate(a) && IsCalendarDate(b) && Before(a, b)
    ensures DayNumber(a) < DayNumber(b)
  {
    DayOfYearBounds(a);
    DayOfYearBounds(b);
    if a.year < b.year {
      DayFromYearIncreasing(a.year, b.year);
    } else if a.month < b.month {
      MonthStartIncreasing(a.year, a.month, b.month);
    }
  }

  /** Distinct calendar dates have distinct day numbers. */
  lemma DayNumberInjective(a: CivilDate, b: CivilDate)
    requires IsCalendarDate(a) && IsCalendarDate(b)
    requires DayNumber(a) == DayNumber(b)
    ensures a == b
  {
    if Before(a, b) {
      DayNumberMonotone(a, b);
    } else if Before(b, a) {
      DayNumberMonotone(b, a);
    }
  }

  /** `ShiftDays(d, n)` is THE calendar date whose ECMA-262 day number is
      `DayNumber(d) + n`: the calendar-correct meaning of adding days. */
  lemma ShiftDaysUnique(d: CivilDate, n: int, e: CivilDate)
    requires IsCalendarDate(d) && IsCalendarDate(e)
    ensures e == ShiftDays(d, n) <==> DayNumber(e) == DayNumber(d) + n
  {
    ShiftDaysDayNumber(d, n);
    if DayNumber(e) == DayNumber(d) + n {
      DayNumberInjective(e, ShiftDays(d, n));
    }
  }

  /** Shifts compose: `n` days then `m` days is `n + m` days. */
  lemma ShiftDaysAdditive(d: CivilDate, n: int, m: int)
    requires IsCalendarDate(d)
    ensures ShiftDays(ShiftDays(d, n), m) == ShiftDays(d, n + m)
  {
    var e := ShiftDays(d, n);
    ShiftDaysDayNumber(d, n);
    ShiftDaysDayNumber(e, m);
    ShiftDaysUnique(d, n + m, ShiftDays(e, m));
  }

  /** Leap-year February and month/year rollover, on the dates the
      scheduler's tests use. */
  lemma RolloverExamples()
    ensures NextDay(CivilDate(2024, 2, 28)) == CivilDate(2024, 2, 29)
    ensures NextDay(CivilDate(2024, 2, 29)) == CivilDate(2024, 3, 1)
    ensures NextDay(CivilDate(2026, 2, 28)) == CivilDate(2026, 3, 1)
    ensures NextDay(CivilDate(2026, 12, 31)) == CivilDate(2027, 1, 1)
    ensures NextDay(CivilDate(2026, 3, 31)) == CivilDate(2026, 4, 1)
    ensures PrevDay(CivilDate(2026, 3, 1)) == CivilDate(2026, 2, 28)
    ensures ShiftDays(CivilDate(2026, 3, 1), 10) == CivilDate(2026, 3, 11)
  {
  }
}
