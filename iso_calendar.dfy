/**
 * The proleptic Gregorian (ISO) calendar and the canonical day axis.
 *
 * The canonical day axis counts days from 0001-01-01 of the proleptic
 * Gregorian calendar (day 0, a Monday).  Every other calendar system of the
 * model converts to and from this axis, and dates of different systems are
 * ordered by their position on it.
 */
module IsoCalendar {

  datatype LocalDate = LocalDate(year: int, month: int, day: int)

  /**
   * The 4/100/400 leap rule.  Only the zero-ness of each remainder matters,
   * and that is the same under Java's truncating `%` and Dafny's Euclidean `%`,
   * so negative years follow the same rule.
   */
  predicate IsLeapYear(year: int)
  {
    year % 4 == 0 && (year % 100 != 0 || year % 400 == 0)
  }

  function YearLength(year: int): int
  {
    if IsLeapYear(year) then 366 else 365
  }

  function MonthLength(year: int, month: int): (n: int)
    requires 1 <= month <= 12
    ensures 28 <= n <= 31
    ensures n == 29 <==> month == 2 && IsLeapYear(year)
  {
    if month == 2 then (if IsLeapYear(year) then 29 else 28)
    else if month == 4 || month == 6 || month == 9 || month == 11 then 30
    else 31
  }

  /** Days of `year` before the first of `month`; month 13 stands for the end of the year. */
  function DaysBeforeMonth(year: int, month: int): int
    requires 1 <= month <= 13
  {
    CommonDaysBeforeMonth(month) + (if month > 2 && IsLeapYear(year) then 1 else 0)
  }

  /** Days before the first of `month` in a common year. */
  function CommonDaysBeforeMonth(month: int): int
  {
    if month <= 1 then 0
    else if month == 2 then 31
    else if month == 3 then 59
    else if month == 4 then 90
    else if month == 5 then 120
    else if month == 6 then 151
    else if month == 7 then 181
    else if month == 8 then 212
    else if month == 9 then 243
    else if month == 10 then 273
    else if month == 11 then 304
    else if month == 12 then 334
    else 365
  }

  /** Days from 0001-01-01 to the first day of `year` (negative before year 1). */
  function DaysBeforeYear(year: int): int
  {
    var y := year - 1;
    365 * y + y / 4 - y / 100 + y / 400
  }

  predicate IsValid(d: LocalDate)
  {
    1 <= d.month <= 12 && 1 <= d.day <= MonthLength(d.year, d.month)
  }

  function DayOfYear(d: LocalDate): int
    requires IsValid(d)
  {
    DaysBeforeMonth(d.year, d.month) + d.day
  }

  /** The position of a date on the canonical day axis. */
  function EpochDay(d: LocalDate): int
    requires IsValid(d)
  {
    DaysBeforeYear(d.year) + DayOfYear(d) - 1
  }

  /** ISO day of week, Monday = 1 to Sunday = 7. */
  function DayOfWeek(epochDay: int): (r: int)
    ensures 1 <= r <= 7
  {
    epochDay % 7 + 1
  }

  //---------------------------------------------------------------------------
  // Month and year arithmetic
  //---------------------------------------------------------------------------

  lemma MonthStep(year: int, month: int)
    requires 1 <= month <= 12
    ensures DaysBeforeMonth(year, month + 1) == DaysBeforeMonth(year, month) + MonthLength(year, month)
  {
  }

  lemma YearEnd(year: int)
    ensures DaysBeforeMonth(year, 13) == YearLength(year)
  {
  }

  lemma {:induction false} DaysBeforeMonthMonotone(year: int, m1: int, m2: int)
    requires 1 <= m1 <= m2 <= 13
    ensures DaysBeforeMonth(year, m1) + 28 * (m2 - m1) <= DaysBeforeMonth(year, m2)
    decreases m2 - m1
  {
    if m1 < m2 {
      DaysBeforeMonthMonotone(year, m1, m2 - 1);
      MonthStep(year, m2 - 1);
    }
  }

  lemma DivStep(x: int)
    ensures (x + 1) / 4 - x / 4 == (if (x + 1) % 4 == 0 then 1 else 0)
    ensures (x + 1) / 100 - x / 100 == (if (x + 1) % 100 == 0 then 1 else 0)
    ensures (x + 1) / 400 - x / 400 == (if (x + 1) % 400 == 0 then 1 else 0)
  {
  }

  /** Consecutive year starts are one year length apart. */
  lemma YearStep(year: int)
    ensures DaysBeforeYear(year + 1) == DaysBeforeYear(year) + YearLength(year)
  {
    DivStep(year - 1);
  }

  /** Every 400 years the calendar repeats: 146097 days per cycle. */
  lemma CycleStart(q: int)
    ensures DaysBeforeYear(400 * q + 1) == 146097 * q
  {
    var y := 400 * q;
    assert y / 4 == 100 * q;
    assert y / 100 == 4 * q;
    assert y / 400 == q;
  }

  /** Between year starts lie at least 365 and at most 366 days per year. */
  lemma {:induction false} DaysBeforeYearBounds(a: int, b: int)
    requires a <= b
    ensures DaysBeforeYear(a) + 365 * (b - a) <= DaysBeforeYear(b) <= DaysBeforeYear(a) + 366 * (b - a)
    decreases b - a
  {
    if a < b {
      DaysBeforeYearBounds(a, b - 1);
      YearStep(b - 1);
    }
  }

  /** A valid date lies between the start of its year and the start of the next. */
  lemma EpochDayWithinYear(d: LocalDate)
    requires IsValid(d)
    ensures DaysBeforeYear(d.year) <= EpochDay(d) < DaysBeforeYear(d.year + 1)
  {
    DaysBeforeMonthMonotone(d.year, d.month, 13);
    MonthStep(d.year, d.month);
    DaysBeforeMonthMonotone(d.year, d.month + 1, 13);
    YearStep(d.year);
  }

  //---------------------------------------------------------------------------
  // From the day axis back to fields
  //---------------------------------------------------------------------------

  /** The year in [y, limit) whose span holds day `e`. */
  function FindYear(e: int, y: int, limit: int): (r: int)
    requires y < limit
    requires DaysBeforeYear(y) <= e < DaysBeforeYear(limit)
    ensures y <= r < limit
    ensures DaysBeforeYear(r) <= e < DaysBeforeYear(r + 1)
    decreases limit - y
  {
    if e < DaysBeforeYear(y + 1) then y else FindYear(e, y + 1, limit)
  }

  /** The month of `year` whose span holds the day offset `offset` (0 for the first of January). */
  function MonthOfOffset(year: int, offset: int): (m: int)
    requires 0 <= offset < YearLength(year)
    ensures 1 <= m <= 12
    ensures DaysBeforeMonth(year, m) <= offset < DaysBeforeMonth(year, m + 1)
  {
    var leap := if IsLeapYear(year) then 1 else 0;
    if offset < 31 then 1
    else if offset < 59 + leap then 2
    else if offset < 90 + leap then 3
    else if offset < 120 + leap then 4
    else if offset < 151 + leap then 5
    else if offset < 181 + leap then 6
    else if offset < 212 + leap then 7
    else if offset < 243 + leap then 8
    else if offset < 273 + leap then 9
    else if offset < 304 + leap then 10
    else if offset < 334 + leap then 11
    else 12
  }

  /** Shifting a year by 400 shifts its start by one cycle of 146097 days. */
  lemma CycleShift(year: int)
    ensures DaysBeforeYear(year + 400) == DaysBeforeYear(year) + 146097
  {
    var x := year - 1;
    assert (x + 400) / 4 == x / 4 + 100;
    assert (x + 400) / 100 == x / 100 + 4;
    assert (x + 400) / 400 == x / 400 + 1;
  }

  /**
   * The year whose span holds day `e`: days before the first cycle move up
   * one 400-year cycle at a time, days after it move down, and within the
   * cycle that starts at year 1 the year is searched directly.
   */
  function YearOfEpochDay(e: int): (y: int)
    ensures DaysBeforeYear(y) <= e < DaysBeforeYear(y + 1)
    decreases if e < 0 then 146097 - e else e
  {
    if e < 0 then
      var y := YearOfEpochDay(e + 146097) - 400;
      CycleShift(y);
      CycleShift(y + 1);
      y
    else if e >= 146097 then
      var y := YearOfEpochDay(e - 146097) + 400;
      CycleShift(y - 400);
      CycleShift(y - 399);
      y
    else
      CycleStart(0);
      CycleStart(1);
      FindYear(e, 1, 401)
  }

  /** The date at position `e` of the canonical day axis. */
  function FromEpochDay(e: int): (d: LocalDate)
    ensures IsValid(d)
    ensures EpochDay(d) == e
  {
    var y := YearOfEpochDay(e);
    var offset := e - DaysBeforeYear(y);
    YearStep(y);
    var m := MonthOfOffset(y, offset);
    MonthStep(y, m);
    LocalDate(y, m, offset - DaysBeforeMonth(y, m) + 1)
  }

  /** Distinct valid dates sit at distinct positions of the day axis. */
  lemma EpochDayInjective(a: LocalDate, b: LocalDate)
    requires IsValid(a) && IsValid(b)
    requires EpochDay(a) == EpochDay(b)
    ensures a == b
  {
    EpochDayWithinYear(a);
    EpochDayWithinYear(b);
    if a.year < b.year {
      DaysBeforeYearBounds(a.year + 1, b.year);
    } else if b.year < a.year {
      DaysBeforeYearBounds(b.year + 1, a.year);
    }
    assert a.year == b.year;
    MonthStep(a.year, a.month);
    MonthStep(b.year, b.month);
    if a.month < b.month {
      DaysBeforeMonthMonotone(a.year, a.month + 1, b.month);
    } else if b.month < a.month {
      DaysBeforeMonthMonotone(b.year, b.month + 1, a.month);
    }
  }

  /** Year, then month, then day: the order in which dates are written. */
  predicate Before(a: LocalDate, b: LocalDate)
  {
    a.year < b.year || (a.year == b.year && (a.month < b.month || (a.month == b.month && a.day < b.day)))
  }

  /** A date written earlier lies earlier on the day axis. */
  lemma EpochDayMonotone(a: LocalDate, b: LocalDate)
    requires IsValid(a) && IsValid(b) && Before(a, b)
    ensures EpochDay(a) < EpochDay(b)
  {
    EpochDayWithinYear(a);
    EpochDayWithinYear(b);
    if a.year < b.year {
      DaysBeforeYearBounds(a.year + 1, b.year);
    } else if a.month < b.month {
      MonthStep(a.year, a.month);
      DaysBeforeMonthMonotone(a.year, a.month + 1, b.month);
    }
  }

  /** Converting a valid date to the day axis and back gives the date itself. */
  lemma FromEpochDayRoundTrip(d: LocalDate)
    requires IsValid(d)
    ensures FromEpochDay(EpochDay(d)) == d
  {
    EpochDayInjective(FromEpochDay(EpochDay(d)), d);
  }

  /** The day of week advances by one per day and wraps from Sunday (7) to Monday (1). */
  lemma DayOfWeekNext(e: int)
    ensures DayOfWeek(e + 1) == if DayOfWeek(e) == 7 then 1 else DayOfWeek(e) + 1
  {
  }
}
