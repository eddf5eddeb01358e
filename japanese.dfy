/**
 * Dates of the Japanese imperial-era calendar.  A date is an era, a year of
 * era from 1 to 9999, a month and a day; the era table maps the year of era
 * to a proleptic Gregorian year, and from there month lengths, the leap rule
 * and the position on the canonical day axis are those of the ISO calendar.
 *
 * Construction and field replacement validate every field and name the
 * first field that fails; year and month arithmetic stay in the era and are
 * re-validated; day and week arithmetic go through the canonical day axis,
 * and the era of the result is the era in force on the day reached.
 */
module JapaneseCalendar {
  import opened CalendarFields
  import opened DecimalText
  import opened JapaneseEras
  import Iso = IsoCalendar

  datatype JapaneseDate = JapaneseDate(era: JapaneseEra, yearOfEra: int, monthOfYear: int, dayOfMonth: int)

  const YearOfEraRule := Rule(JapaneseChronology, YearOfEra)
  const MonthOfYearRule := Rule(JapaneseChronology, MonthOfYear)
  const DayOfMonthRule := Rule(JapaneseChronology, DayOfMonth)
  const DayOfYearRule := Rule(JapaneseChronology, DayOfYear)

  const MIN_YEAR_OF_ERA := 1
  const MAX_YEAR_OF_ERA := 9999

  /** The era of the factory that takes no era. */
  const DEFAULT_ERA := Heisei

  //---------------------------------------------------------------------------
  // Date values and their derived fields
  //---------------------------------------------------------------------------

  function DateProlepticYear(d: JapaneseDate): int
  {
    ProlepticYear(d.era, d.yearOfEra)
  }

  /** The same day in the ISO calendar: the mapped year with the same month and day. */
  function IsoDate(d: JapaneseDate): Iso.LocalDate
  {
    Iso.LocalDate(DateProlepticYear(d), d.monthOfYear, d.dayOfMonth)
  }

  /** Fields that name a day of the calendar (the year of era may exceed the supported maximum). */
  predicate InCalendar(d: JapaneseDate)
  {
    && d.yearOfEra >= MIN_YEAR_OF_ERA
    && 1 <= d.monthOfYear <= 12
    && 1 <= d.dayOfMonth <= Iso.MonthLength(DateProlepticYear(d), d.monthOfYear)
  }

  /** The invariant of every date value the factories return. */
  predicate IsValid(d: JapaneseDate)
  {
    InCalendar(d) && d.yearOfEra <= MAX_YEAR_OF_ERA
  }

  /** A date whose era is the era in force on its day, as day arithmetic produces. */
  predicate IsCanonical(d: JapaneseDate)
  {
    d.era == EraOfDate(IsoDate(d))
  }

  function DateIsLeapYear(d: JapaneseDate): bool
  {
    Iso.IsLeapYear(DateProlepticYear(d))
  }

  /** The day of the year, from 1 on 1 January to the year's length on 31 December. */
  function GetDayOfYear(d: JapaneseDate): (n: int)
    requires InCalendar(d)
    ensures 1 <= n <= Iso.YearLength(DateProlepticYear(d))
  {
    Iso.DayOfYear(IsoDate(d))
  }

  /** The position of a date on the canonical day axis. */
  function EpochDay(d: JapaneseDate): int
    requires InCalendar(d)
  {
    Iso.EpochDay(IsoDate(d))
  }

  /** The ISO day of week, 1 (Monday) to 7 (Sunday), of the date's position on the day axis. */
  function GetDayOfWeek(d: JapaneseDate): (n: int)
    requires InCalendar(d)
    ensures 1 <= n <= 7
  {
    Iso.DayOfWeek(EpochDay(d))
  }

  /** The leap flag of a date is the era-table leap test of its era code and year of era. */
  lemma DateIsLeapYearMatchesTable(d: JapaneseDate)
    ensures DateIsLeapYear(d) == Iso.IsLeapYear(ProlepticYearOfCode(EraValue(d.era), d.yearOfEra))
  {
    ProlepticYearMatchesScan(d.era, d.yearOfEra);
  }

  //---------------------------------------------------------------------------
  // From the day axis back to fields
  //---------------------------------------------------------------------------

  /** The date at position `e` of the day axis, in the era in force on that day. */
  function FromEpochDay(e: int): (d: JapaneseDate)
    ensures InCalendar(d) && IsCanonical(d)
    ensures IsoDate(d) == Iso.FromEpochDay(e)
    ensures EpochDay(d) == e
  {
    var local := Iso.FromEpochDay(e);
    var era := EraOfDate(local);
    YearOfEraOfDatePositive(local);
    JapaneseDate(era, YearOfEraOf(era, local.year), local.month, local.day)
  }

  /** Two dates of one era at the same position of the day axis are the same date. */
  lemma EpochDayInjective(a: JapaneseDate, b: JapaneseDate)
    requires InCalendar(a) && InCalendar(b) && a.era == b.era
    requires EpochDay(a) == EpochDay(b)
    ensures a == b
  {
    Iso.EpochDayInjective(IsoDate(a), IsoDate(b));
    ProlepticYearInjective(a.era, a.yearOfEra, b.yearOfEra);
  }

  /** A date in the era of its own day survives the trip to the day axis and back. */
  lemma FromEpochDayRoundTrip(d: JapaneseDate)
    requires InCalendar(d) && IsCanonical(d)
    ensures FromEpochDay(EpochDay(d)) == d
  {
    var back := FromEpochDay(EpochDay(d));
    Iso.FromEpochDayRoundTrip(IsoDate(d));
    assert IsoDate(back) == IsoDate(d);
    ProlepticYearInjective(d.era, back.yearOfEra, d.yearOfEra);
  }

  /** Two dates, each in the era of its own day, at the same position of the day axis are the same date. */
  lemma CanonicalInjective(a: JapaneseDate, b: JapaneseDate)
    requires InCalendar(a) && InCalendar(b) && IsCanonical(a) && IsCanonical(b)
    requires EpochDay(a) == EpochDay(b)
    ensures a == b
  {
    Iso.EpochDayInjective(IsoDate(a), IsoDate(b));
    EpochDayInjective(a, b);
  }

  /** The date found at the position of a date in the era of its own day is that date. */
  lemma FromEpochDayOfCanonical(e: int, d: JapaneseDate)
    requires InCalendar(d) && IsCanonical(d)
    requires EpochDay(d) == e
    ensures FromEpochDay(e) == d
  {
    FromEpochDayRoundTrip(d);
  }

  //---------------------------------------------------------------------------
  // Factories and field replacement
  //---------------------------------------------------------------------------

  /**
   * `japaneseDate(era, yearOfEra, monthOfYear, dayOfMonth)`: checks the year
   * of era, then the month, then the day against the month's length in the
   * mapped Gregorian year, and names the first field that fails.
   */
  function Of(era: JapaneseEra, yearOfEra: int, monthOfYear: int, dayOfMonth: int): (r: Result<JapaneseDate>)
    ensures r.Ok? <==> IsValid(JapaneseDate(era, yearOfEra, monthOfYear, dayOfMonth))
    ensures r.Ok? ==> r.value == JapaneseDate(era, yearOfEra, monthOfYear, dayOfMonth)
    ensures !(MIN_YEAR_OF_ERA <= yearOfEra <= MAX_YEAR_OF_ERA) ==>
      r == Err(FieldOutOfRange(YearOfEraRule, yearOfEra, MIN_YEAR_OF_ERA, MAX_YEAR_OF_ERA))
    ensures (MIN_YEAR_OF_ERA <= yearOfEra <= MAX_YEAR_OF_ERA && !(1 <= monthOfYear <= 12)) ==>
      r == Err(FieldOutOfRange(MonthOfYearRule, monthOfYear, 1, 12))
    ensures (MIN_YEAR_OF_ERA <= yearOfEra <= MAX_YEAR_OF_ERA && 1 <= monthOfYear <= 12 && r.Err?) ==>
      FailsOn(r, DayOfMonthRule)
  {
    if !(MIN_YEAR_OF_ERA <= yearOfEra <= MAX_YEAR_OF_ERA) then
      Err(FieldOutOfRange(YearOfEraRule, yearOfEra, MIN_YEAR_OF_ERA, MAX_YEAR_OF_ERA))
    else if !(1 <= monthOfYear <= 12) then
      Err(FieldOutOfRange(MonthOfYearRule, monthOfYear, 1, 12))
    else
      var length := Iso.MonthLength(ProlepticYear(era, yearOfEra), monthOfYear);
      if !(1 <= dayOfMonth <= length) then Err(FieldOutOfRange(DayOfMonthRule, dayOfMonth, 1, length))
      else Ok(JapaneseDate(era, yearOfEra, monthOfYear, dayOfMonth))
  }

  /** `japaneseDate(yearOfEra, monthOfYear, dayOfMonth)`: a date of the default era HEISEI. */
  function OfDefaultEra(yearOfEra: int, monthOfYear: int, dayOfMonth: int): (r: Result<JapaneseDate>)
    ensures r.Ok? ==> r.value.era == Heisei
    ensures r == Of(Heisei, yearOfEra, monthOfYear, dayOfMonth)
  {
    Of(DEFAULT_ERA, yearOfEra, monthOfYear, dayOfMonth)
  }

  /** `withYearOfEra`: the same era, month and day in another year of era, re-validated. */
  function WithYearOfEra(d: JapaneseDate, yearOfEra: int): (r: Result<JapaneseDate>)
    requires IsValid(d)
    ensures r.Ok? <==> IsValid(d.(yearOfEra := yearOfEra))
    ensures r.Ok? ==> r.value == d.(yearOfEra := yearOfEra)
    ensures !(MIN_YEAR_OF_ERA <= yearOfEra <= MAX_YEAR_OF_ERA) ==>
      r == Err(FieldOutOfRange(YearOfEraRule, yearOfEra, MIN_YEAR_OF_ERA, MAX_YEAR_OF_ERA))
    ensures MIN_YEAR_OF_ERA <= yearOfEra <= MAX_YEAR_OF_ERA && r.Err? ==> FailsOn(r, DayOfMonthRule)
  {
    Of(d.era, yearOfEra, d.monthOfYear, d.dayOfMonth)
  }

  /** `withYear(era, yearOfEra)`: the same month and day in another era and year of era, re-validated. */
  function WithYear(d: JapaneseDate, era: JapaneseEra, yearOfEra: int): (r: Result<JapaneseDate>)
    requires IsValid(d)
    ensures r.Ok? <==> IsValid(d.(era := era, yearOfEra := yearOfEra))
    ensures r.Ok? ==> r.value == d.(era := era, yearOfEra := yearOfEra)
    ensures !(MIN_YEAR_OF_ERA <= yearOfEra <= MAX_YEAR_OF_ERA) ==>
      r == Err(FieldOutOfRange(YearOfEraRule, yearOfEra, MIN_YEAR_OF_ERA, MAX_YEAR_OF_ERA))
    ensures MIN_YEAR_OF_ERA <= yearOfEra <= MAX_YEAR_OF_ERA && r.Err? ==> FailsOn(r, DayOfMonthRule)
  {
    Of(era, yearOfEra, d.monthOfYear, d.dayOfMonth)
  }

  /** `withMonthOfYear`: the same era, year and day in another month, re-validated. */
  function WithMonthOfYear(d: JapaneseDate, monthOfYear: int): (r: Result<JapaneseDate>)
    requires IsValid(d)
    ensures r.Ok? <==> IsValid(d.(monthOfYear := monthOfYear))
    ensures r.Ok? ==> r.value == d.(monthOfYear := monthOfYear)
    ensures !(1 <= monthOfYear <= 12) ==> r == Err(FieldOutOfRange(MonthOfYearRule, monthOfYear, 1, 12))
    ensures 1 <= monthOfYear <= 12 && r.Err? ==> FailsOn(r, DayOfMonthRule)
  {
    Of(d.era, d.yearOfEra, monthOfYear, d.dayOfMonth)
  }

  function WithDayOfMonth(d: JapaneseDate, dayOfMonth: int): (r: Result<JapaneseDate>)
    requires IsValid(d)
    ensures r.Ok? <==> 1 <= dayOfMonth <= Iso.MonthLength(DateProlepticYear(d), d.monthOfYear)
    ensures r.Ok? ==> r.value == d.(dayOfMonth := dayOfMonth)
    ensures r.Err? ==> FailsOn(r, DayOfMonthRule)
  {
    Of(d.era, d.yearOfEra, d.monthOfYear, dayOfMonth)
  }

  /** The date of the same year whose day of year is `dayOfYear`. */
  function WithDayOfYear(d: JapaneseDate, dayOfYear: int): (r: Result<JapaneseDate>)
    requires IsValid(d)
    ensures r.Ok? <==> 1 <= dayOfYear <= Iso.YearLength(DateProlepticYear(d))
    ensures r.Ok? ==> IsValid(r.value) && r.value.era == d.era && r.value.yearOfEra == d.yearOfEra
                      && GetDayOfYear(r.value) == dayOfYear
    ensures r.Err? ==> r.error == FieldOutOfRange(DayOfYearRule, dayOfYear, 1, Iso.YearLength(DateProlepticYear(d)))
  {
    var year := DateProlepticYear(d);
    if !(1 <= dayOfYear <= Iso.YearLength(year)) then
      Err(FieldOutOfRange(DayOfYearRule, dayOfYear, 1, Iso.YearLength(year)))
    else
      var month := Iso.MonthOfOffset(year, dayOfYear - 1);
      Iso.MonthStep(year, month);
      Ok(JapaneseDate(d.era, d.yearOfEra, month, dayOfYear - Iso.DaysBeforeMonth(year, month)))
  }

  //---------------------------------------------------------------------------
  // Arithmetic
  //---------------------------------------------------------------------------

  /** Adds years within the era and re-validates; no clamping of the day. */
  function PlusYears(d: JapaneseDate, years: int): (r: Result<JapaneseDate>)
    requires IsValid(d)
    ensures r.Ok? <==> IsValid(d.(yearOfEra := d.yearOfEra + years))
    ensures r.Ok? ==> r.value == d.(yearOfEra := d.yearOfEra + years)
    ensures !(MIN_YEAR_OF_ERA <= d.yearOfEra + years <= MAX_YEAR_OF_ERA) ==>
      r == Err(FieldOutOfRange(YearOfEraRule, d.yearOfEra + years, MIN_YEAR_OF_ERA, MAX_YEAR_OF_ERA))
    ensures MIN_YEAR_OF_ERA <= d.yearOfEra + years <= MAX_YEAR_OF_ERA && r.Err? ==> FailsOn(r, DayOfMonthRule)
  {
    Of(d.era, d.yearOfEra + years, d.monthOfYear, d.dayOfMonth)
  }

  function MinusYears(d: JapaneseDate, years: int): (r: Result<JapaneseDate>)
    requires IsValid(d)
    ensures r.Ok? <==> IsValid(d.(yearOfEra := d.yearOfEra - years))
    ensures r.Ok? ==> r.value == d.(yearOfEra := d.yearOfEra - years)
    ensures !(MIN_YEAR_OF_ERA <= d.yearOfEra - years <= MAX_YEAR_OF_ERA) ==>
      r == Err(FieldOutOfRange(YearOfEraRule, d.yearOfEra - years, MIN_YEAR_OF_ERA, MAX_YEAR_OF_ERA))
    ensures MIN_YEAR_OF_ERA <= d.yearOfEra - years <= MAX_YEAR_OF_ERA && r.Err? ==> FailsOn(r, DayOfMonthRule)
  {
    PlusYears(d, -years)
  }

  /**
   * The fields `months` months after `d` within its era, before validation:
   * the month carries into the year of era by floor division, the day is kept.
   */
  function ShiftMonths(d: JapaneseDate, months: int): (s: JapaneseDate)
    ensures s.era == d.era && s.dayOfMonth == d.dayOfMonth && 1 <= s.monthOfYear <= 12
    ensures s.yearOfEra * 12 + s.monthOfYear == d.yearOfEra * 12 + d.monthOfYear + months
  {
    var total := d.monthOfYear - 1 + months;
    JapaneseDate(d.era, d.yearOfEra + total / 12, total % 12 + 1, d.dayOfMonth)
  }

  /** Adds months within the era, carrying into the year of era, and re-validates; no clamping of the day. */
  function PlusMonths(d: JapaneseDate, months: int): (r: Result<JapaneseDate>)
    requires IsValid(d)
    ensures r.Ok? <==> IsValid(ShiftMonths(d, months))
    ensures r.Ok? ==> r.value == ShiftMonths(d, months)
    ensures !(MIN_YEAR_OF_ERA <= ShiftMonths(d, months).yearOfEra <= MAX_YEAR_OF_ERA) ==>
      r == Err(FieldOutOfRange(YearOfEraRule, ShiftMonths(d, months).yearOfEra, MIN_YEAR_OF_ERA, MAX_YEAR_OF_ERA))
    ensures MIN_YEAR_OF_ERA <= ShiftMonths(d, months).yearOfEra <= MAX_YEAR_OF_ERA && r.Err? ==>
      FailsOn(r, DayOfMonthRule)
  {
    var s := ShiftMonths(d, months);
    Of(s.era, s.yearOfEra, s.monthOfYear, s.dayOfMonth)
  }

  function MinusMonths(d: JapaneseDate, months: int): (r: Result<JapaneseDate>)
    requires IsValid(d)
    ensures r.Ok? <==> IsValid(ShiftMonths(d, -months))
    ensures r.Ok? ==> r.value == ShiftMonths(d, -months)
    ensures !(MIN_YEAR_OF_ERA <= ShiftMonths(d, -months).yearOfEra <= MAX_YEAR_OF_ERA) ==>
      r == Err(FieldOutOfRange(YearOfEraRule, ShiftMonths(d, -months).yearOfEra, MIN_YEAR_OF_ERA, MAX_YEAR_OF_ERA))
    ensures MIN_YEAR_OF_ERA <= ShiftMonths(d, -months).yearOfEra <= MAX_YEAR_OF_ERA && r.Err? ==>
      FailsOn(r, DayOfMonthRule)
  {
    PlusMonths(d, -months)
  }

  /** Moving a valid date forward by some years and back by as many returns it. */
  lemma PlusYearsThenMinusYears(d: JapaneseDate, years: int)
    requires IsValid(d) && PlusYears(d, years).Ok?
    ensures MinusYears(PlusYears(d, years).value, years) == Ok(d)
  {
  }

  /** Two month shifts that cancel out give back the fields shifted. */
  lemma ShiftMonthsCancel(d: JapaneseDate, months: int)
    requires 1 <= d.monthOfYear <= 12
    ensures ShiftMonths(ShiftMonths(d, months), -months) == d
  {
    var b := ShiftMonths(ShiftMonths(d, months), -months);
    assert b.yearOfEra * 12 + b.monthOfYear == d.yearOfEra * 12 + d.monthOfYear;
  }

  /** Moving a valid date forward by some months and back by as many returns it. */
  lemma PlusMonthsThenMinusMonths(d: JapaneseDate, months: int)
    requires IsValid(d) && PlusMonths(d, months).Ok?
    ensures MinusMonths(PlusMonths(d, months).value, months) == Ok(d)
  {
    ShiftMonthsCancel(d, months);
  }

  /**
   * No clamping: 29 February of HEISEI 20 (2008) has no counterpart in 2009,
   * and 31 January none in February, so the shifted day fails naming the day of month.
   */
  lemma ShiftedDayMustExist()
    ensures PlusYears(JapaneseDate(Heisei, 20, 2, 29), 1) == Err(FieldOutOfRange(DayOfMonthRule, 29, 1, 28))
    ensures PlusMonths(JapaneseDate(Heisei, 21, 1, 31), 1) == Err(FieldOutOfRange(DayOfMonthRule, 31, 1, 28))
  {
  }

  /** Replacing the year of era and then restoring it gives back the date. */
  lemma WithYearOfEraRestores(d: JapaneseDate, yearOfEra: int)
    requires IsValid(d) && WithYearOfEra(d, yearOfEra).Ok?
    ensures WithYearOfEra(WithYearOfEra(d, yearOfEra).value, d.yearOfEra) == Ok(d)
  {
  }

  /** Replacing the era and year and then restoring them gives back the date. */
  lemma WithYearRestores(d: JapaneseDate, era: JapaneseEra, yearOfEra: int)
    requires IsValid(d) && WithYear(d, era, yearOfEra).Ok?
    ensures WithYear(WithYear(d, era, yearOfEra).value, d.era, d.yearOfEra) == Ok(d)
  {
  }

  /** Replacing the month and then restoring it gives back the date. */
  lemma WithMonthOfYearRestores(d: JapaneseDate, monthOfYear: int)
    requires IsValid(d) && WithMonthOfYear(d, monthOfYear).Ok?
    ensures WithMonthOfYear(WithMonthOfYear(d, monthOfYear).value, d.monthOfYear) == Ok(d)
  {
  }

  /** Adds days through the canonical day axis; a year of era beyond 9999 fails. */
  function PlusDays(d: JapaneseDate, days: int): (r: Result<JapaneseDate>)
    requires IsValid(d)
    ensures r.Ok? ==> IsValid(r.value) && IsCanonical(r.value) && EpochDay(r.value) == EpochDay(d) + days
    ensures r.Err? ==> FailsOn(r, YearOfEraRule)
    ensures r.Err? ==> FromEpochDay(EpochDay(d) + days).yearOfEra > MAX_YEAR_OF_ERA
  {
    var moved := FromEpochDay(EpochDay(d) + days);
    if moved.yearOfEra > MAX_YEAR_OF_ERA then
      Err(FieldOutOfRange(YearOfEraRule, moved.yearOfEra, MIN_YEAR_OF_ERA, MAX_YEAR_OF_ERA))
    else Ok(moved)
  }

  function MinusDays(d: JapaneseDate, days: int): (r: Result<JapaneseDate>)
    requires IsValid(d)
    ensures r.Ok? ==> IsValid(r.value) && IsCanonical(r.value) && EpochDay(r.value) == EpochDay(d) - days
    ensures r.Err? ==> FailsOn(r, YearOfEraRule)
  {
    PlusDays(d, Negate(days))
  }

  function PlusWeeks(d: JapaneseDate, weeks: int): (r: Result<JapaneseDate>)
    requires IsValid(d)
    ensures r.Ok? ==> IsValid(r.value) && IsCanonical(r.value) && EpochDay(r.value) == EpochDay(d) + 7 * weeks
    ensures r.Err? ==> FailsOn(r, YearOfEraRule)
  {
    PlusDays(d, 7 * weeks)
  }

  function MinusWeeks(d: JapaneseDate, weeks: int): (r: Result<JapaneseDate>)
    requires IsValid(d)
    ensures r.Ok? ==> IsValid(r.value) && IsCanonical(r.value) && EpochDay(r.value) == EpochDay(d) - 7 * weeks
    ensures r.Err? ==> FailsOn(r, YearOfEraRule)
  {
    PlusWeeks(d, Negate(weeks))
  }

  /** The day `days` after `d` on the day axis is `target`, when `target` is in the era of its own day. */
  lemma StepLandsOn(d: JapaneseDate, days: int, target: JapaneseDate)
    requires IsValid(d) && IsValid(target) && IsCanonical(target)
    requires EpochDay(target) == EpochDay(d) + days
    ensures FromEpochDay(EpochDay(d) + days) == target
  {
    CanonicalInjective(FromEpochDay(EpochDay(d) + days), target);
  }

  /** Adding days lands exactly on the date, in the era of its day, found at that distance. */
  lemma PlusDaysLandsOn(d: JapaneseDate, days: int, target: JapaneseDate)
    requires IsValid(d) && IsValid(target) && IsCanonical(target)
    requires EpochDay(target) == EpochDay(d) + days
    ensures PlusDays(d, days) == Ok(target)
  {
    var r := PlusDays(d, days);
    StepLandsOn(d, days, target);
    if r.Ok? {
      CanonicalInjective(r.value, target);
    }
  }

  /** Subtracting days lands exactly on the date, in the era of its day, found that far back. */
  lemma MinusDaysLandsOn(d: JapaneseDate, days: int, target: JapaneseDate)
    requires IsValid(d) && IsValid(target) && IsCanonical(target)
    requires EpochDay(target) == EpochDay(d) - days
    ensures MinusDays(d, days) == Ok(target)
  {
    PlusDaysLandsOn(d, Negate(days), target);
  }

  /** Adding weeks lands on the date, in the era of its day, seven days per week further on. */
  lemma PlusWeeksLandsOn(d: JapaneseDate, weeks: int, target: JapaneseDate)
    requires IsValid(d) && IsValid(target) && IsCanonical(target)
    requires EpochDay(target) == EpochDay(d) + 7 * weeks
    ensures PlusWeeks(d, weeks) == Ok(target)
  {
    PlusDaysLandsOn(d, 7 * weeks, target);
  }

  /** Subtracting weeks lands on the date, in the era of its day, seven days per week back. */
  lemma MinusWeeksLandsOn(d: JapaneseDate, weeks: int, target: JapaneseDate)
    requires IsValid(d) && IsValid(target) && IsCanonical(target)
    requires EpochDay(target) == EpochDay(d) - 7 * weeks
    ensures MinusWeeks(d, weeks) == Ok(target)
  {
    PlusWeeksLandsOn(d, Negate(weeks), target);
  }

  /** Subtracting what was added restores a date that is in the era of its own day. */
  lemma PlusDaysThenMinusDays(d: JapaneseDate, days: int)
    requires IsValid(d) && IsCanonical(d)
    requires PlusDays(d, days).Ok?
    ensures MinusDays(PlusDays(d, days).value, days) == Ok(d)
  {
    MinusDaysLandsOn(PlusDays(d, days).value, days, d);
  }

  /** Every valid date lies between the start of proleptic year -9998 and the end of year 11987. */
  lemma EpochDayBounds(d: JapaneseDate)
    requires IsValid(d)
    ensures Iso.DaysBeforeYear(-9998) <= EpochDay(d) < Iso.DaysBeforeYear(11988)
  {
    var p := DateProlepticYear(d);
    ProlepticYearOffsets(d.yearOfEra);
    assert -9998 <= p <= 11987;
    Iso.EpochDayWithinYear(IsoDate(d));
    Iso.DaysBeforeYearBounds(-9998, p);
    Iso.DaysBeforeYearBounds(p + 1, 11988);
  }

  /** Moving Integer.MAX_VALUE days or more forward from a valid date passes the end of proleptic year 11987. */
  lemma AboveRange(d: JapaneseDate, days: int)
    requires IsValid(d)
    requires days >= 0x7fff_ffff
    ensures EpochDay(d) + days >= Iso.DaysBeforeYear(11988)
  {
    EpochDayBounds(d);
    Iso.DaysBeforeYearBounds(-9998, 11988);
  }

  /** Moving Integer.MAX_VALUE days or more back from a valid date passes the start of proleptic year -9998. */
  lemma BelowRange(d: JapaneseDate, days: int)
    requires IsValid(d)
    requires days <= -0x7fff_ffff
    ensures EpochDay(d) + days < Iso.DaysBeforeYear(-9998)
  {
    EpochDayBounds(d);
    Iso.DaysBeforeYearBounds(-9998, 11988);
  }

  /** A day after the end of proleptic year 11987 is beyond year of era 9999 of every era. */
  lemma FarAfterFails(d: JapaneseDate, days: int)
    requires InCalendar(d)
    requires EpochDay(d) + days >= Iso.DaysBeforeYear(11988)
    ensures FromEpochDay(EpochDay(d) + days).yearOfEra > MAX_YEAR_OF_ERA
  {
    var local := Iso.FromEpochDay(EpochDay(d) + days);
    Iso.EpochDayWithinYear(local);
    if local.year < 11988 {
      Iso.DaysBeforeYearBounds(local.year + 1, 11988);
      assert false;
    }
    EraOfDateBounds(local);
  }

  /** A day before the start of proleptic year -9998 is beyond year 9999 before the era. */
  lemma FarBeforeFails(d: JapaneseDate, days: int)
    requires InCalendar(d)
    requires EpochDay(d) + days < Iso.DaysBeforeYear(-9998)
    ensures FromEpochDay(EpochDay(d) + days).yearOfEra > MAX_YEAR_OF_ERA
  {
    var local := Iso.FromEpochDay(EpochDay(d) + days);
    Iso.EpochDayWithinYear(local);
    if local.year > -9999 {
      Iso.DaysBeforeYearBounds(-9998, local.year);
      assert false;
    }
    EraOfDateBounds(local);
  }

  /** Adding days fails whenever the day reached is beyond year of era 9999 of its era. */
  lemma FailsBeyond(d: JapaneseDate, days: int)
    requires IsValid(d)
    requires FromEpochDay(EpochDay(d) + days).yearOfEra > MAX_YEAR_OF_ERA
    ensures FailsOn(PlusDays(d, days), YearOfEraRule)
  {
  }

  /** Adding Integer.MAX_VALUE days or more to any date runs past year of era 9999. */
  lemma PlusDaysOverflow(d: JapaneseDate, days: int)
    requires IsValid(d)
    requires days >= 0x7fff_ffff
    ensures FailsOn(PlusDays(d, days), YearOfEraRule)
  {
    AboveRange(d, days);
    FarAfterFails(d, days);
    FailsBeyond(d, days);
  }

  /** Adding Integer.MIN_VALUE + 1 days or fewer to any date runs past year 9999 before the era. */
  lemma PlusDaysUnderflow(d: JapaneseDate, days: int)
    requires IsValid(d)
    requires days <= -0x7fff_ffff
    ensures FailsOn(PlusDays(d, days), YearOfEraRule)
  {
    BelowRange(d, days);
    FarBeforeFails(d, days);
    FailsBeyond(d, days);
  }

  /** Subtracting Integer.MAX_VALUE days from any date runs past year 9999 before the era. */
  lemma MinusDaysOverflow(d: JapaneseDate, days: int)
    requires IsValid(d)
    requires days >= 0x7fff_ffff
    ensures FailsOn(MinusDays(d, days), YearOfEraRule)
  {
    PlusDaysUnderflow(d, Negate(days));
  }

  /** Adding Integer.MAX_VALUE weeks to any date runs past year of era 9999. */
  lemma PlusWeeksOverflow(d: JapaneseDate, weeks: int)
    requires IsValid(d)
    requires weeks >= 0x7fff_ffff
    ensures FailsOn(PlusWeeks(d, weeks), YearOfEraRule)
  {
    PlusDaysOverflow(d, 7 * weeks);
  }

  /** Subtracting Integer.MAX_VALUE weeks from any date runs past year 9999 before the era. */
  lemma MinusWeeksOverflow(d: JapaneseDate, weeks: int)
    requires IsValid(d)
    requires weeks >= 0x7fff_ffff
    ensures FailsOn(MinusWeeks(d, weeks), YearOfEraRule)
  {
    PlusDaysUnderflow(d, 7 * Negate(weeks));
  }

  //---------------------------------------------------------------------------
  // Queries, ordering and text
  //---------------------------------------------------------------------------

  /** The generic field query: only this chronology's date rules are supported. */
  function Get(d: JapaneseDate, rule: Rule): (r: Result<int>)
    requires IsValid(d)
    ensures r.Err? <==> rule.chronology != JapaneseChronology || rule.field == WeekOfWeekyear || rule.field == HourOfDay
    ensures r.Err? ==> r.error == UnsupportedField(rule)
    ensures rule == Rule(JapaneseChronology, Era) ==> r == Ok(EraValue(d.era))
    ensures rule == YearOfEraRule ==> r == Ok(d.yearOfEra)
    ensures rule == MonthOfYearRule ==> r == Ok(d.monthOfYear)
    ensures rule == DayOfMonthRule ==> r == Ok(d.dayOfMonth)
    ensures rule == DayOfYearRule ==> r == Ok(GetDayOfYear(d)) && 1 <= r.value <= Iso.YearLength(DateProlepticYear(d))
    ensures rule == Rule(JapaneseChronology, DayOfWeek) ==> r == Ok(GetDayOfWeek(d)) && 1 <= r.value <= 7
  {
    if rule.chronology != JapaneseChronology then Err(UnsupportedField(rule))
    else match rule.field
      case Era => Ok(EraValue(d.era))
      case YearOfEra => Ok(d.yearOfEra)
      case MonthOfYear => Ok(d.monthOfYear)
      case DayOfMonth => Ok(d.dayOfMonth)
      case DayOfYear => Ok(GetDayOfYear(d))
      case DayOfWeek => Ok(GetDayOfWeek(d))
      case _ => Err(UnsupportedField(rule))
  }

  /**
   * Dates compare by their position on the canonical day axis; within one
   * era, and among dates in the era of their own day, 0 means equal.
   */
  function CompareTo(a: JapaneseDate, b: JapaneseDate): (r: int)
    requires IsValid(a) && IsValid(b)
    ensures r == -1 || r == 0 || r == 1
    ensures r == 0 <==> EpochDay(a) == EpochDay(b)
    ensures r < 0 <==> EpochDay(a) < EpochDay(b)
  {
    Compare(EpochDay(a), EpochDay(b))
  }

  function IsBefore(a: JapaneseDate, b: JapaneseDate): (r: bool)
    requires IsValid(a) && IsValid(b)
    ensures r <==> CompareTo(a, b) < 0
  {
    EpochDay(a) < EpochDay(b)
  }

  function IsAfter(a: JapaneseDate, b: JapaneseDate): (r: bool)
    requires IsValid(a) && IsValid(b)
    ensures r <==> CompareTo(a, b) > 0
  {
    EpochDay(a) > EpochDay(b)
  }

  /** For dates of one era, or for dates in the era of their own day, compareTo is 0 exactly for equal dates. */
  lemma CompareToZeroIsEquality(a: JapaneseDate, b: JapaneseDate)
    requires IsValid(a) && IsValid(b)
    requires a.era == b.era || (IsCanonical(a) && IsCanonical(b))
    ensures CompareTo(a, b) == 0 <==> a == b
  {
    if CompareTo(a, b) == 0 {
      if a.era == b.era {
        EpochDayInjective(a, b);
      } else {
        FromEpochDayRoundTrip(a);
        FromEpochDayRoundTrip(b);
      }
    }
  }

  lemma CompareToAntisymmetric(a: JapaneseDate, b: JapaneseDate)
    requires IsValid(a) && IsValid(b)
    ensures CompareTo(a, b) == -CompareTo(b, a)
  {
  }

  lemma CompareToTransitive(a: JapaneseDate, b: JapaneseDate, c: JapaneseDate)
    requires IsValid(a) && IsValid(b) && IsValid(c)
    requires CompareTo(a, b) < 0 && CompareTo(b, c) < 0
    ensures CompareTo(a, c) < 0
  {
  }

  predicate Ascending(dates: seq<JapaneseDate>)
  {
    && (forall i :: 0 <= i < |dates| ==> IsValid(dates[i]))
    && (forall i :: 0 <= i < |dates| - 1 ==> EpochDay(dates[i]) < EpochDay(dates[i + 1]))
  }

  lemma {:induction false} AscendingIsStrict(dates: seq<JapaneseDate>, i: int, j: int)
    requires Ascending(dates)
    requires 0 <= i < j < |dates|
    ensures EpochDay(dates[i]) < EpochDay(dates[j])
    decreases j - i
  {
    if i + 1 < j {
      AscendingIsStrict(dates, i + 1, j);
    }
  }

  /**
   * For a list of dates in ascending order, `compareTo`, `isBefore`, `isAfter`
   * and `equals` agree with the positions in the list.
   */
  lemma ComparisonsFollowPositions(dates: seq<JapaneseDate>, i: int, j: int)
    requires Ascending(dates)
    requires 0 <= i < |dates| && 0 <= j < |dates|
    ensures i < j ==> CompareTo(dates[i], dates[j]) < 0 && IsBefore(dates[i], dates[j])
                      && !IsAfter(dates[i], dates[j]) && dates[i] != dates[j]
    ensures i > j ==> CompareTo(dates[i], dates[j]) > 0 && !IsBefore(dates[i], dates[j])
                      && IsAfter(dates[i], dates[j]) && dates[i] != dates[j]
    ensures i == j ==> CompareTo(dates[i], dates[j]) == 0 && !IsBefore(dates[i], dates[j])
                       && !IsAfter(dates[i], dates[j])
  {
    if i < j {
      AscendingIsStrict(dates, i, j);
    } else if j < i {
      AscendingIsStrict(dates, j, i);
    }
  }

  /** Dates listed in written order of their ISO dates are in ascending order. */
  lemma AscendingByFields(dates: seq<JapaneseDate>)
    requires forall i :: 0 <= i < |dates| ==> IsValid(dates[i])
    requires forall i :: 0 <= i < |dates| - 1 ==> Iso.Before(IsoDate(dates[i]), IsoDate(dates[i + 1]))
    ensures Ascending(dates)
  {
    forall i | 0 <= i < |dates| - 1
      ensures EpochDay(dates[i]) < EpochDay(dates[i + 1])
    {
      Iso.EpochDayMonotone(IsoDate(dates[i]), IsoDate(dates[i + 1]));
    }
  }

  /** The index of the first space of `s`, if any. */
  function FirstSpace(s: string): (r: Option<nat>)
    ensures r.Some? ==> r.value < |s| && s[r.value] == ' ' && forall i :: 0 <= i < r.value ==> s[i] != ' '
    ensures r.None? ==> forall i :: 0 <= i < |s| ==> s[i] != ' '
  {
    if |s| == 0 then None
    else if s[0] == ' ' then Some(0)
    else match FirstSpace(s[1..])
      case Some(k) => Some(k + 1)
      case None => None
  }

  /** `{ERA} {yearOfEra}-{MM}-{dd} (Japanese)`. */
  function ToString(d: JapaneseDate): (s: string)
    requires IsValid(d)
    ensures ParseString(s) == Some((d.era, d.yearOfEra, d.monthOfYear, d.dayOfMonth))
  {
    var name := EraName(d.era);
    var text := DateText(d.yearOfEra, d.monthOfYear, d.dayOfMonth);
    var s := name + " " + text + " (Japanese)";
    DateTextRoundTrip(d.yearOfEra, d.monthOfYear, d.dayOfMonth);
    EraNameRoundTrip(d.era);
    var body := s[..|s| - 11];
    assert body == name + " " + text;
    assert body[|name|] == ' ';
    assert forall i :: 0 <= i < |name| ==> body[i] == name[i];
    assert FirstSpace(body) == Some(|name|);
    assert body[..|name|] == name && body[|name| + 1..] == text;
    s
  }

  /** Reads a string of the ToString form back into (era, year of era, month, day). */
  function ParseString(s: string): Option<(JapaneseEra, int, int, int)>
  {
    if |s| >= 11 && s[|s| - 11..] == " (Japanese)" then
      var body := s[..|s| - 11];
      match FirstSpace(body)
      case None => None
      case Some(k) =>
        match (EraOfName(body[..k]), ParseDateText(body[k + 1..]))
        case (Some(era), Some((y, m, d))) => Some((era, y, m, d))
        case _ => None
    else None
  }

  //---------------------------------------------------------------------------
  // Conversion to and from the ISO calendar
  //---------------------------------------------------------------------------

  function ToLocalDate(d: JapaneseDate): (r: Iso.LocalDate)
    requires IsValid(d)
    ensures Iso.IsValid(r) && Iso.EpochDay(r) == EpochDay(d)
    ensures r.year == DateProlepticYear(d) && r.month == d.monthOfYear && r.day == d.dayOfMonth
  {
    IsoDate(d)
  }

  /** `japaneseDate(DateProvider)`: the Japanese date of the same day, in the era in force then. */
  function FromLocalDate(date: Iso.LocalDate): (r: Result<JapaneseDate>)
    requires Iso.IsValid(date)
    ensures r.Ok? ==> IsValid(r.value) && IsCanonical(r.value) && ToLocalDate(r.value) == date
    ensures r.Err? ==> FailsOn(r, YearOfEraRule)
  {
    var d := FromEpochDay(Iso.EpochDay(date));
    if d.yearOfEra > MAX_YEAR_OF_ERA then
      Err(FieldOutOfRange(YearOfEraRule, d.yearOfEra, MIN_YEAR_OF_ERA, MAX_YEAR_OF_ERA))
    else
      Iso.EpochDayInjective(IsoDate(d), date);
      Ok(d)
  }

  /** Converting a date in the era of its own day to the ISO calendar and back gives it back. */
  lemma LocalDateRoundTrip(d: JapaneseDate)
    requires IsValid(d) && IsCanonical(d)
    ensures FromLocalDate(ToLocalDate(d)) == Ok(d)
  {
    FromEpochDayRoundTrip(d);
  }

  /** The day of week of a Japanese date is that of the ISO date of the same day. */
  lemma DayOfWeekMatchesLocalDate(d: JapaneseDate)
    requires IsValid(d)
    ensures GetDayOfWeek(d) == Iso.DayOfWeek(Iso.EpochDay(ToLocalDate(d)))
  {
  }

  /** The day of week advances by one per day and wraps from 7 to 1. */
  lemma DayOfWeekOfNextDay(d: JapaneseDate)
    requires IsValid(d)
    requires PlusDays(d, 1).Ok?
    ensures GetDayOfWeek(PlusDays(d, 1).value) == if GetDayOfWeek(d) == 7 then 1 else GetDayOfWeek(d) + 1
  {
    Iso.DayOfWeekNext(EpochDay(d));
  }

  //---------------------------------------------------------------------------
  // The fixed scenarios: HEISEI 21-03-03, which is 2009-03-03 in the ISO calendar
  //---------------------------------------------------------------------------

  const TestDate := JapaneseDate(Heisei, 21, 3, 3)

  /** HEISEI 21 is the common year 2009, so 03-03 is day 62; the default era is HEISEI. */
  lemma TestDateFields()
    ensures Of(Heisei, 21, 3, 3) == Ok(TestDate) && OfDefaultEra(21, 3, 3) == Ok(TestDate)
    ensures DateProlepticYear(TestDate) == 2009 && !DateIsLeapYear(TestDate)
    ensures GetDayOfYear(TestDate) == 62
  {
    ProlepticYearOffsets(21);
  }

  /** The leap test of the tests' own era table agrees with the date: HEISEI 21 is not a leap year. */
  lemma TestOracleLeapYear()
    ensures !Iso.IsLeapYear(ProlepticYearOfCode(6, 21))
    ensures DateIsLeapYear(TestDate) == Iso.IsLeapYear(ProlepticYearOfCode(EraValue(TestDate.era), TestDate.yearOfEra))
  {
    DateIsLeapYearMatchesTable(TestDate);
    ProlepticYearMatchesScan(Heisei, 21);
    ProlepticYearOffsets(21);
  }

  /** HEISEI 21-03-03 is in the era of its own day and is the ISO date 2009-03-03. */
  lemma TestDateIsLocalDate()
    ensures IsCanonical(TestDate)
    ensures ToLocalDate(TestDate) == Iso.LocalDate(2009, 3, 3)
    ensures FromLocalDate(Iso.LocalDate(2009, 3, 3)) == Ok(TestDate)
  {
    ProlepticYearOffsets(21);
    LocalDateRoundTrip(TestDate);
  }

  /** The field queries of the tests; the time field HourOfDay is unsupported. */
  lemma TestGet()
    ensures Get(TestDate, Rule(JapaneseChronology, Era)) == Ok(6)
    ensures Get(TestDate, Rule(JapaneseChronology, YearOfEra)) == Ok(21)
    ensures Get(TestDate, Rule(JapaneseChronology, MonthOfYear)) == Ok(3)
    ensures Get(TestDate, Rule(JapaneseChronology, DayOfMonth)) == Ok(3)
    ensures Get(TestDate, Rule(JapaneseChronology, DayOfYear)) == Ok(62)
    ensures Get(TestDate, Rule(JapaneseChronology, DayOfWeek)) == Ok(2)
    ensures Get(TestDate, Rule(IsoChronology, HourOfDay)) == Err(UnsupportedField(Rule(IsoChronology, HourOfDay)))
  {
    ProlepticYearOffsets(21);
    assert IsoDate(TestDate) == Iso.LocalDate(2009, 3, 3);
    assert GetDayOfYear(TestDate) == 62;
    assert Iso.DaysBeforeYear(2009) == 733407;
    assert EpochDay(TestDate) == 733468;
  }

  /** HEISEI 21-03-02 to 21-03-09 fall on Monday (1) to Sunday (7) and Monday again. */
  lemma TestWeekDays(day: int)
    requires 2 <= day <= 9
    ensures GetDayOfWeek(TestDate.(dayOfMonth := day)) == (day - 2) % 7 + 1
  {
    ProlepticYearOffsets(21);
    var d := TestDate.(dayOfMonth := day);
    assert IsoDate(d) == Iso.LocalDate(2009, 3, day);
    assert Iso.DaysBeforeYear(2009) == 733407;
    assert EpochDay(d) == 733465 + day;
    assert (733465 + day) % 7 == (day - 2) % 7;
  }

  /** Each factory and replacement of the tests fails on the field it names. */
  lemma TestValidationFailures()
    ensures FailsOn(OfDefaultEra(10000, 3, 3), YearOfEraRule)
    ensures FailsOn(OfDefaultEra(21, 13, 3), MonthOfYearRule)
    ensures FailsOn(OfDefaultEra(21, 3, 40), DayOfMonthRule)
    ensures FailsOn(WithYearOfEra(TestDate, -1), YearOfEraRule)
    ensures FailsOn(WithYearOfEra(TestDate, 10000), YearOfEraRule)
    ensures FailsOn(WithYear(TestDate, Heisei, -1), YearOfEraRule)
    ensures FailsOn(WithYear(TestDate, Heisei, 10000), YearOfEraRule)
    ensures FailsOn(WithMonthOfYear(TestDate, -1), MonthOfYearRule)
    ensures FailsOn(WithMonthOfYear(TestDate, 13), MonthOfYearRule)
    ensures FailsOn(WithDayOfMonth(TestDate, 0), DayOfMonthRule)
    ensures FailsOn(WithDayOfMonth(TestDate, 32), DayOfMonthRule)
    ensures FailsOn(WithDayOfYear(TestDate, 0), DayOfYearRule)
    ensures FailsOn(WithDayOfYear(TestDate, 367), DayOfYearRule)
  {
    ProlepticYearOffsets(21);
  }

  /** Replacements of the tests that succeed, including day of year 15 as 01-15. */
  lemma TestReplacements()
    ensures WithYearOfEra(TestDate, 2010) == Ok(JapaneseDate(Heisei, 2010, 3, 3))
    ensures WithYear(TestDate, Showa, 48) == Ok(JapaneseDate(Showa, 48, 3, 3))
    ensures WithMonthOfYear(TestDate, 4) == Ok(JapaneseDate(Heisei, 21, 4, 3))
    ensures WithDayOfMonth(TestDate, 4) == Ok(JapaneseDate(Heisei, 21, 3, 4))
    ensures WithDayOfYear(TestDate, 15) == Ok(JapaneseDate(Heisei, 21, 1, 15))
  {
    ProlepticYearOffsets(21);
    ProlepticYearOffsets(48);
    ProlepticYearOffsets(2010);
  }

  /** Year and month arithmetic of the tests stays in the era and keeps the day. */
  lemma TestYearMonthArithmetic()
    ensures PlusYears(TestDate, 10) == Ok(JapaneseDate(Heisei, 31, 3, 3))
    ensures MinusYears(TestDate, 10) == Ok(JapaneseDate(Heisei, 11, 3, 3))
    ensures PlusMonths(TestDate, 5) == Ok(JapaneseDate(Heisei, 21, 8, 3))
    ensures MinusMonths(TestDate, 1) == Ok(JapaneseDate(Heisei, 21, 2, 3))
  {
    ProlepticYearOffsets(11);
    ProlepticYearOffsets(21);
    ProlepticYearOffsets(31);
  }

  /** plusDays(2) of the tests. */
  lemma TestPlusDays()
    ensures PlusDays(TestDate, 2) == Ok(JapaneseDate(Heisei, 21, 3, 5))
  {
    PlusDaysLandsOn(TestDate, 2, JapaneseDate(Heisei, 21, 3, 5));
  }

  /** minusDays(2) of the tests. */
  lemma TestMinusDays()
    ensures MinusDays(TestDate, 2) == Ok(JapaneseDate(Heisei, 21, 3, 1))
  {
    MinusDaysLandsOn(TestDate, 2, JapaneseDate(Heisei, 21, 3, 1));
  }

  /** plusWeeks(2) of the tests. */
  lemma TestPlusWeeks()
    ensures PlusWeeks(TestDate, 2) == Ok(JapaneseDate(Heisei, 21, 3, 17))
  {
    PlusWeeksLandsOn(TestDate, 2, JapaneseDate(Heisei, 21, 3, 17));
  }

  /** minusWeeks(2) of the tests crosses into the 28-day February of 2009. */
  lemma TestMinusWeeks()
    ensures MinusWeeks(TestDate, 2) == Ok(JapaneseDate(Heisei, 21, 2, 17))
  {
    MinusWeeksLandsOn(TestDate, 2, JapaneseDate(Heisei, 21, 2, 17));
  }

  /** The out-of-range year and month arithmetic of the tests fails on the year of era. */
  lemma TestArithmeticFailures()
    ensures FailsOn(PlusYears(TestDate, 9999), YearOfEraRule)
    ensures FailsOn(MinusYears(TestDate, 20000), YearOfEraRule)
    ensures FailsOn(PlusMonths(TestDate, 0x7fff_ffff), YearOfEraRule)
    ensures FailsOn(MinusMonths(TestDate, 0x7fff_ffff), YearOfEraRule)
  {
  }

  /** plusDays(Integer.MAX_VALUE) of the tests fails on the year of era. */
  lemma TestPlusDaysOverflow()
    ensures FailsOn(PlusDays(TestDate, 0x7fff_ffff), YearOfEraRule)
  {
    PlusDaysOverflow(TestDate, 0x7fff_ffff);
  }

  /** minusDays(Integer.MAX_VALUE) of the tests fails on the year of era. */
  lemma TestMinusDaysOverflow()
    ensures FailsOn(MinusDays(TestDate, 0x7fff_ffff), YearOfEraRule)
  {
    MinusDaysOverflow(TestDate, 0x7fff_ffff);
  }

  /** plusWeeks(Integer.MAX_VALUE) of the tests fails on the year of era. */
  lemma TestPlusWeeksOverflow()
    ensures FailsOn(PlusWeeks(TestDate, 0x7fff_ffff), YearOfEraRule)
  {
    PlusWeeksOverflow(TestDate, 0x7fff_ffff);
  }

  /** minusWeeks(Integer.MAX_VALUE) of the tests fails on the year of era. */
  lemma TestMinusWeeksOverflow()
    ensures FailsOn(MinusWeeks(TestDate, 0x7fff_ffff), YearOfEraRule)
  {
    MinusWeeksOverflow(TestDate, 0x7fff_ffff);
  }

  /** The dates of the ordering test, all of the default era, in ascending order. */
  const OrderedDates := [
    JapaneseDate(Heisei, 1, 1, 1), JapaneseDate(Heisei, 1, 1, 2), JapaneseDate(Heisei, 1, 1, 31),
    JapaneseDate(Heisei, 1, 2, 1), JapaneseDate(Heisei, 1, 2, 28), JapaneseDate(Heisei, 1, 12, 31),
    JapaneseDate(Heisei, 2, 1, 1), JapaneseDate(Heisei, 2, 12, 31), JapaneseDate(Heisei, 3, 1, 1),
    JapaneseDate(Heisei, 3, 12, 31), JapaneseDate(Heisei, 9999, 1, 1), JapaneseDate(Heisei, 9999, 12, 31)]

  lemma OrderedDatesAscending()
    ensures Ascending(OrderedDates)
  {
    AscendingByFields(OrderedDates);
  }

  /** The year, month and day part of the tests' text form. */
  lemma TestDateText()
    ensures DateText(21, 3, 3) == "21-03-03"
  {
    assert NatToString(2) == "2";
    assert NatToString(21) == "21";
    assert TwoDigits(3) == "03";
  }

  lemma TestToString()
    ensures ToString(TestDate) == "HEISEI 21-03-03 (Japanese)"
  {
    TestDateText();
  }
}
