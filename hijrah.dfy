/**
 * The tabular Hijrah (lunar) calendar: a fixed 30-year cycle with eleven
 * leap years, months alternating 30 and 29 days, and a leap day at the end
 * of month 12.  Dates carry an era (HIJRAH, or BEFORE_HIJRAH with mirrored
 * year numbering) and a year of era from 1 to 9999.
 *
 * Construction and field replacement validate every field and name the
 * first field that fails; year and month arithmetic stay in the era and are
 * re-validated; day and week arithmetic go through the canonical day axis.
 */
module HijrahCalendar {
  import opened CalendarFields
  import opened DecimalText
  import Iso = IsoCalendar

  datatype HijrahEra = BeforeHijrah | Hijrah

  datatype HijrahDate = HijrahDate(era: HijrahEra, yearOfEra: int, monthOfYear: int, dayOfMonth: int)

  const YearOfEraRule := Rule(HijrahChronology, YearOfEra)
  const MonthOfYearRule := Rule(HijrahChronology, MonthOfYear)
  const DayOfMonthRule := Rule(HijrahChronology, DayOfMonth)
  const DayOfYearRule := Rule(HijrahChronology, DayOfYear)

  const MIN_YEAR_OF_ERA := 1
  const MAX_YEAR_OF_ERA := 9999

  /** Canonical day of 1 Muharram of year 1: 0622-07-19 of the proleptic Gregorian calendar. */
  const HIJRAH_EPOCH_DAY := 227014

  /** Days in one 30-year cycle: 30 * 354 + 11 leap days. */
  const CYCLE_DAYS := 10631

  //---------------------------------------------------------------------------
  // Year and month rules
  //---------------------------------------------------------------------------

  function Abs(year: int): nat
  {
    if year > 0 then year else -year
  }

  /**
   * The tabular leap rule on the magnitude of the year.  The dividend is
   * never negative, so Java's `%` and Dafny's `%` agree.
   */
  predicate IsLeapYear(year: int)
  {
    (14 + 11 * Abs(year)) % 30 < 11
  }

  /** The eleven positions in a 30-year cycle (counted from 0) that hold a leap year. */
  const LEAP_POSITIONS: set<int> := {2, 5, 7, 10, 13, 16, 18, 21, 24, 26, 29}

  /** The leap years of the first 30-year cycle are 2, 5, 7, 10, 13, 16, 18, 21, 24, 26 and 29. */
  lemma LeapYearsOfCycle(year: int)
    requires 1 <= year <= 30
    ensures IsLeapYear(year) <==> year in LEAP_POSITIONS
  {
  }

  /** The rule ignores the sign of the year, so BEFORE_HIJRAH years follow the same cycle. */
  lemma LeapYearSymmetric(year: int)
    ensures IsLeapYear(-year) == IsLeapYear(year)
  {
    assert Abs(-year) == Abs(year);
  }

  /** The rule repeats every 30 years. */
  lemma LeapYearPeriodic(year: int)
    requires year >= 0
    ensures IsLeapYear(year + 30) == IsLeapYear(year)
  {
    var x := 14 + 11 * year;
    var q, r := x / 30, x % 30;
    assert 14 + 11 * Abs(year + 30) == 30 * (q + 11) + r;
  }

  /** A value written as 30 * k + r with 0 <= r < 30 has remainder r. */
  lemma RemainderOf(y: int, k: int, r: int)
    requires y == 30 * k + r && 0 <= r < 30
    ensures y % 30 == r
  {
  }

  /** Where `14 + 11 * a` falls modulo 30 depends only on where `a` falls in its cycle. */
  lemma LeapRemainder(a: nat)
    ensures (14 + 11 * a) % 30 == (14 + 11 * (a % 30)) % 30
  {
    var q, m := a / 30, a % 30;
    assert a == 30 * q + m;
    var x := 14 + 11 * m;
    var k, r := x / 30, x % 30;
    assert x == 30 * k + r;
    assert 14 + 11 * a == 30 * (11 * q + k) + r;
    RemainderOf(14 + 11 * a, 11 * q + k, r);
  }

  /** Every year, of either era, is leap exactly when its magnitude falls on one of the eleven leap positions of its cycle. */
  lemma LeapYearByPosition(year: int)
    ensures IsLeapYear(year) <==> Abs(year) % 30 in LEAP_POSITIONS
  {
    var m := Abs(year) % 30;
    LeapRemainder(Abs(year));
    if m != 0 {
      LeapYearsOfCycle(m);
    }
  }

  function YearLength(year: int): int
  {
    if IsLeapYear(year) then 355 else 354
  }

  /** Odd months have 30 days, even months 29; month 12 gains a day in a leap year. */
  function MonthLength(year: int, month: int): (n: int)
    requires 1 <= month <= 12
    ensures n == 29 || n == 30
  {
    if month == 12 && IsLeapYear(year) then 30
    else if month % 2 == 1 then 30
    else 29
  }

  /** Days of a year before the first of `month`; month 13 stands for the end of the year. */
  function DaysBeforeMonth(month: int): int
    requires 1 <= month <= 13
  {
    29 * (month - 1) + month / 2
  }

  /**
   * Days from 1 Muharram of proleptic year 1 to the first day of proleptic
   * year `year`: 354 days per year plus one per leap year in between.
   */
  function DaysBeforeYear(year: int): int
  {
    if year >= 1 then 354 * (year - 1) + (11 * year + 3) / 30
    else -(354 * (1 - year) + (14 - 11 * year) / 30)
  }

  /** Proleptic year: HIJRAH years count up from 1, BEFORE_HIJRAH year 1 is proleptic year 0. */
  function ProlepticYear(era: HijrahEra, yearOfEra: int): int
  {
    if era == Hijrah then yearOfEra else 1 - yearOfEra
  }

  function EraOf(prolepticYear: int): HijrahEra
  {
    if prolepticYear >= 1 then Hijrah else BeforeHijrah
  }

  function YearOfEraOf(prolepticYear: int): int
  {
    if prolepticYear >= 1 then prolepticYear else 1 - prolepticYear
  }

  function EraValue(era: HijrahEra): int
  {
    if era == Hijrah then 1 else 0
  }

  //---------------------------------------------------------------------------
  // Date values and their derived fields
  //---------------------------------------------------------------------------

  function DateProlepticYear(d: HijrahDate): int
  {
    ProlepticYear(d.era, d.yearOfEra)
  }

  /** Fields that name a day of the calendar (the year of era may exceed the supported maximum). */
  predicate InCalendar(d: HijrahDate)
  {
    && d.yearOfEra >= MIN_YEAR_OF_ERA
    && 1 <= d.monthOfYear <= 12
    && 1 <= d.dayOfMonth <= MonthLength(DateProlepticYear(d), d.monthOfYear)
  }

  /** The invariant of every date value the factories return. */
  predicate IsValid(d: HijrahDate)
  {
    InCalendar(d) && d.yearOfEra <= MAX_YEAR_OF_ERA
  }

  function DateIsLeapYear(d: HijrahDate): bool
  {
    IsLeapYear(DateProlepticYear(d))
  }

  /** The day of the year, from 1 on 1 Muharram to the year's length on its last day. */
  function GetDayOfYear(d: HijrahDate): (n: int)
    requires InCalendar(d)
    ensures 1 <= n <= YearLength(DateProlepticYear(d))
  {
    DaysBeforeMonth(d.monthOfYear) + d.dayOfMonth
  }

  /** The position of a date on the canonical day axis. */
  function EpochDay(d: HijrahDate): int
    requires InCalendar(d)
  {
    HIJRAH_EPOCH_DAY + DaysBeforeYear(DateProlepticYear(d)) + GetDayOfYear(d) - 1
  }

  /** The ISO day of week, 1 (Monday) to 7 (Sunday), of the date's position on the day axis. */
  function GetDayOfWeek(d: HijrahDate): (n: int)
    requires InCalendar(d)
    ensures 1 <= n <= 7
  {
    Iso.DayOfWeek(EpochDay(d))
  }

  //---------------------------------------------------------------------------
  // The arithmetic behind the day axis
  //---------------------------------------------------------------------------

  lemma DivStep(x: int)
    ensures (x + 11) / 30 - x / 30 == (if (x + 11) % 30 < 11 then 1 else 0)
  {
  }

  /** Consecutive year starts are one year length apart, on both sides of year 1. */
  lemma YearStep(year: int)
    ensures DaysBeforeYear(year + 1) == DaysBeforeYear(year) + YearLength(year)
  {
    if year >= 1 {
      DivStep(11 * year + 3);
    } else if year <= -1 {
      DivStep(3 - 11 * year);
    }
  }

  /** The cycle starting at proleptic year 30q+1 starts on day 10631q, before year 1 as after it. */
  lemma CycleStart(q: int)
    ensures DaysBeforeYear(30 * q + 1) == CYCLE_DAYS * q
  {
    if q >= 0 {
      assert (11 * (30 * q + 1) + 3) / 30 == 11 * q;
    } else {
      assert (14 - 11 * (30 * q + 1)) / 30 == -11 * q;
    }
  }

  lemma MonthStep(year: int, month: int)
    requires 1 <= month <= 12
    ensures month < 12 ==> DaysBeforeMonth(month + 1) == DaysBeforeMonth(month) + MonthLength(year, month)
    ensures month == 12 ==> DaysBeforeMonth(13) + (if IsLeapYear(year) then 1 else 0)
                              == DaysBeforeMonth(month) + MonthLength(year, month)
  {
  }

  /** Days in the `count` consecutive years starting at `year`, summed one year at a time. */
  function DaysInYears(year: int, count: nat): int
    decreases count
  {
    if count == 0 then 0 else YearLength(year) + DaysInYears(year + 1, count - 1)
  }

  /** The closed form of DaysBeforeYear agrees with summing year lengths. */
  lemma {:induction false} DaysInYearsClosedForm(year: int, count: nat)
    ensures DaysInYears(year, count) == DaysBeforeYear(year + count) - DaysBeforeYear(year)
    decreases count
  {
    if count > 0 {
      DaysInYearsClosedForm(year + 1, count - 1);
      YearStep(year);
    }
  }

  /** Every aligned 30-year cycle has 10631 days, so exactly eleven of its years are leap. */
  lemma CycleHasElevenLeapYears(q: int)
    ensures DaysInYears(30 * q + 1, 30) == 30 * 354 + 11
  {
    DaysInYearsClosedForm(30 * q + 1, 30);
    CycleStart(q);
    CycleStart(q + 1);
  }

  lemma {:induction false} DaysBeforeYearBounds(a: int, b: int)
    requires a <= b
    ensures DaysBeforeYear(a) + 354 * (b - a) <= DaysBeforeYear(b) <= DaysBeforeYear(a) + 355 * (b - a)
    decreases b - a
  {
    if a < b {
      DaysBeforeYearBounds(a, b - 1);
      YearStep(b - 1);
    }
  }

  /** A date's day lies between the start of its year and the start of the next. */
  lemma EpochDayWithinYear(d: HijrahDate)
    requires InCalendar(d)
    ensures HIJRAH_EPOCH_DAY + DaysBeforeYear(DateProlepticYear(d)) <= EpochDay(d)
    ensures EpochDay(d) < HIJRAH_EPOCH_DAY + DaysBeforeYear(DateProlepticYear(d) + 1)
  {
    YearStep(DateProlepticYear(d));
  }

  /** The year in [y, limit) whose span holds the local day `e`. */
  function FindYear(e: int, y: int, limit: int): (r: int)
    requires y < limit
    requires DaysBeforeYear(y) <= e < DaysBeforeYear(limit)
    ensures y <= r < limit
    ensures DaysBeforeYear(r) <= e < DaysBeforeYear(r + 1)
    decreases limit - y
  {
    if e < DaysBeforeYear(y + 1) then y else FindYear(e, y + 1, limit)
  }

  /** The month of proleptic year `year` whose span holds the day offset `offset` (0 for 1 Muharram). */
  function MonthOfOffset(year: int, offset: int): (m: int)
    requires 0 <= offset < YearLength(year)
    ensures 1 <= m <= 12
    ensures DaysBeforeMonth(m) <= offset < DaysBeforeMonth(m) + MonthLength(year, m)
  {
    if offset < 30 then 1
    else if offset < 59 then 2
    else if offset < 89 then 3
    else if offset < 118 then 4
    else if offset < 148 then 5
    else if offset < 177 then 6
    else if offset < 207 then 7
    else if offset < 236 then 8
    else if offset < 266 then 9
    else if offset < 295 then 10
    else if offset < 325 then 11
    else 12
  }

  /** The 30-year cycle holding local day `local`, counted one cycle at a time from cycle 0. */
  function CycleOf(local: int): (q: int)
    ensures CYCLE_DAYS * q <= local < CYCLE_DAYS * (q + 1)
    decreases if local < 0 then CYCLE_DAYS - local else local
  {
    if local < 0 then CycleOf(local + CYCLE_DAYS) - 1
    else if local >= CYCLE_DAYS then CycleOf(local - CYCLE_DAYS) + 1
    else 0
  }

  /** The date at position `e` of the canonical day axis (its year of era is not bounded). */
  function FromEpochDay(e: int): (d: HijrahDate)
    ensures InCalendar(d)
    ensures EpochDay(d) == e
  {
    var local := e - HIJRAH_EPOCH_DAY;
    var q := CycleOf(local);
    CycleStart(q);
    CycleStart(q + 1);
    var year := FindYear(local, 30 * q + 1, 30 * q + 31);
    var offset := local - DaysBeforeYear(year);
    YearStep(year);
    var month := MonthOfOffset(year, offset);
    HijrahDate(EraOf(year), YearOfEraOf(year), month, offset - DaysBeforeMonth(month) + 1)
  }

  /** Two dates at the same position of the day axis lie in the same proleptic year. */
  lemma SameDaySameYear(a: HijrahDate, b: HijrahDate)
    requires InCalendar(a) && InCalendar(b)
    requires EpochDay(a) == EpochDay(b)
    ensures DateProlepticYear(a) == DateProlepticYear(b)
  {
    var ya, yb := DateProlepticYear(a), DateProlepticYear(b);
    EpochDayWithinYear(a);
    EpochDayWithinYear(b);
    if ya < yb {
      DaysBeforeYearBounds(ya + 1, yb);
    } else if yb < ya {
      DaysBeforeYearBounds(yb + 1, ya);
    }
  }

  /** Within one year, the day of year fixes the month and the day. */
  lemma DayOfYearInjective(year: int, a: HijrahDate, b: HijrahDate)
    requires InCalendar(a) && InCalendar(b)
    requires DateProlepticYear(a) == year && DateProlepticYear(b) == year
    requires GetDayOfYear(a) == GetDayOfYear(b)
    ensures a.monthOfYear == b.monthOfYear && a.dayOfMonth == b.dayOfMonth
  {
    MonthStep(year, a.monthOfYear);
    MonthStep(year, b.monthOfYear);
  }

  /** Distinct dates sit at distinct positions of the day axis. */
  lemma EpochDayInjective(a: HijrahDate, b: HijrahDate)
    requires InCalendar(a) && InCalendar(b)
    requires EpochDay(a) == EpochDay(b)
    ensures a == b
  {
    SameDaySameYear(a, b);
    var year := DateProlepticYear(a);
    assert a.era == b.era && a.yearOfEra == b.yearOfEra;
    DayOfYearInjective(year, a, b);
  }

  /** Proleptic year, then month, then day: the order in which dates are written. */
  predicate WrittenBefore(a: HijrahDate, b: HijrahDate)
  {
    var ya, yb := DateProlepticYear(a), DateProlepticYear(b);
    ya < yb || (ya == yb && (a.monthOfYear < b.monthOfYear
                             || (a.monthOfYear == b.monthOfYear && a.dayOfMonth < b.dayOfMonth)))
  }

  /** A date written earlier lies earlier on the day axis. */
  lemma EpochDayMonotone(a: HijrahDate, b: HijrahDate)
    requires InCalendar(a) && InCalendar(b) && WrittenBefore(a, b)
    ensures EpochDay(a) < EpochDay(b)
  {
    var ya, yb := DateProlepticYear(a), DateProlepticYear(b);
    EpochDayWithinYear(a);
    EpochDayWithinYear(b);
    if ya < yb {
      DaysBeforeYearBounds(ya + 1, yb);
    } else if a.monthOfYear < b.monthOfYear {
      MonthStep(ya, a.monthOfYear);
    }
  }

  /** Converting a date to the day axis and back gives the date itself. */
  lemma FromEpochDayRoundTrip(d: HijrahDate)
    requires InCalendar(d)
    ensures FromEpochDay(EpochDay(d)) == d
  {
    EpochDayInjective(FromEpochDay(EpochDay(d)), d);
  }

  //---------------------------------------------------------------------------
  // Factories and field replacement
  //---------------------------------------------------------------------------

  /**
   * `hijrahDate(era, yearOfEra, monthOfYear, dayOfMonth)`: checks the year of
   * era, then the month, then the day against the month's length, and names
   * the first field that fails.
   */
  function Of(era: HijrahEra, yearOfEra: int, monthOfYear: int, dayOfMonth: int): (r: Result<HijrahDate>)
    ensures r.Ok? <==> IsValid(HijrahDate(era, yearOfEra, monthOfYear, dayOfMonth))
    ensures r.Ok? ==> r.value == HijrahDate(era, yearOfEra, monthOfYear, dayOfMonth)
    ensures !(MIN_YEAR_OF_ERA <= yearOfEra <= MAX_YEAR_OF_ERA) ==>
      r == Err(FieldOutOfRange(YearOfEraRule, yearOfEra, MIN_YEAR_OF_ERA, MAX_YEAR_OF_ERA))
    ensures (MIN_YEAR_OF_ERA <= yearOfEra <= MAX_YEAR_OF_ERA && !(1 <= monthOfYear <= 12)) ==>
      r == Err(FieldOutOfRange(MonthOfYearRule, monthOfYear, 1, 12))
    ensures (MIN_YEAR_OF_ERA <= yearOfEra <= MAX_YEAR_OF_ERA && 1 <= monthOfYear <= 12 && r.Err?) ==>
      FailsOn(r, DayOfMonthRule)
  {
    if !(MIN_YEAR_OF_ERA <= yearOfEra <= MAX_YEAR_OF_ERA) then
      Err(FieldOutOfRange(YearOfEraRule, yearOfEra, MIN_YEAR_OF_ERA, MAX_YEAR_OF_ERA))
    else if !(1 <= monthOfYear <= 12) then
      Err(FieldOutOfRange(MonthOfYearRule, monthOfYear, 1, 12))
    else
      var length := MonthLength(ProlepticYear(era, yearOfEra), monthOfYear);
      if !(1 <= dayOfMonth <= length) then Err(FieldOutOfRange(DayOfMonthRule, dayOfMonth, 1, length))
      else Ok(HijrahDate(era, yearOfEra, monthOfYear, dayOfMonth))
  }

  /** `hijrahDate(yearOfEra, monthOfYear, dayOfMonth)`: a date of the HIJRAH era. */
  function OfHijrahEra(yearOfEra: int, monthOfYear: int, dayOfMonth: int): (r: Result<HijrahDate>)
    ensures r.Ok? ==> r.value.era == Hijrah
    ensures r == Of(Hijrah, yearOfEra, monthOfYear, dayOfMonth)
  {
    Of(Hijrah, yearOfEra, monthOfYear, dayOfMonth)
  }

  /** `withYearOfEra`: the same era, month and day in another year of era, re-validated. */
  function WithYearOfEra(d: HijrahDate, yearOfEra: int): (r: Result<HijrahDate>)
    requires IsValid(d)
    ensures r.Ok? <==> IsValid(d.(yearOfEra := yearOfEra))
    ensures r.Ok? ==> r.value == d.(yearOfEra := yearOfEra)
    ensures !(MIN_YEAR_OF_ERA <= yearOfEra <= MAX_YEAR_OF_ERA) ==>
      r == Err(FieldOutOfRange(YearOfEraRule, yearOfEra, MIN_YEAR_OF_ERA, MAX_YEAR_OF_ERA))
    ensures MIN_YEAR_OF_ERA <= yearOfEra <= MAX_YEAR_OF_ERA && r.Err? ==> FailsOn(r, DayOfMonthRule)
  {
    Of(d.era, yearOfEra, d.monthOfYear, d.dayOfMonth)
  }

  /** `withYear(era, yearOfEra)`: the same month and day in another era and year of era, re-validated. */
  function WithYear(d: HijrahDate, era: HijrahEra, yearOfEra: int): (r: Result<HijrahDate>)
    requires IsValid(d)
    ensures r.Ok? <==> IsValid(d.(era := era, yearOfEra := yearOfEra))
    ensures r.Ok? ==> r.value == d.(era := era, yearOfEra := yearOfEra)
    ensures !(MIN_YEAR_OF_ERA <= yearOfEra <= MAX_YEAR_OF_ERA) ==>
      r == Err(FieldOutOfRange(YearOfEraRule, yearOfEra, MIN_YEAR_OF_ERA, MAX_YEAR_OF_ERA))
    ensures MIN_YEAR_OF_ERA <= yearOfEra <= MAX_YEAR_OF_ERA && r.Err? ==> FailsOn(r, DayOfMonthRule)
  {
    Of(era, yearOfEra, d.monthOfYear, d.dayOfMonth)
  }

  /** `withMonthOfYear`: the same era, year and day in another month, re-validated. */
  function WithMonthOfYear(d: HijrahDate, monthOfYear: int): (r: Result<HijrahDate>)
    requires IsValid(d)
    ensures r.Ok? <==> IsValid(d.(monthOfYear := monthOfYear))
    ensures r.Ok? ==> r.value == d.(monthOfYear := monthOfYear)
    ensures !(1 <= monthOfYear <= 12) ==> r == Err(FieldOutOfRange(MonthOfYearRule, monthOfYear, 1, 12))
    ensures 1 <= monthOfYear <= 12 && r.Err? ==> FailsOn(r, DayOfMonthRule)
  {
    Of(d.era, d.yearOfEra, monthOfYear, d.dayOfMonth)
  }

  function WithDayOfMonth(d: HijrahDate, dayOfMonth: int): (r: Result<HijrahDate>)
    requires IsValid(d)
    ensures r.Ok? <==> 1 <= dayOfMonth <= MonthLength(DateProlepticYear(d), d.monthOfYear)
    ensures r.Ok? ==> r.value == d.(dayOfMonth := dayOfMonth)
    ensures r.Err? ==> FailsOn(r, DayOfMonthRule)
  {
    Of(d.era, d.yearOfEra, d.monthOfYear, dayOfMonth)
  }

  /** The date of the same year whose day of year is `dayOfYear`. */
  function WithDayOfYear(d: HijrahDate, dayOfYear: int): (r: Result<HijrahDate>)
    requires IsValid(d)
    ensures r.Ok? <==> 1 <= dayOfYear <= YearLength(DateProlepticYear(d))
    ensures r.Ok? ==> IsValid(r.value) && r.value.era == d.era && r.value.yearOfEra == d.yearOfEra
                      && GetDayOfYear(r.value) == dayOfYear
    ensures r.Err? ==> r.error == FieldOutOfRange(DayOfYearRule, dayOfYear, 1, YearLength(DateProlepticYear(d)))
  {
    var year := DateProlepticYear(d);
    if !(1 <= dayOfYear <= YearLength(year)) then
      Err(FieldOutOfRange(DayOfYearRule, dayOfYear, 1, YearLength(year)))
    else
      var month := MonthOfOffset(year, dayOfYear - 1);
      Ok(HijrahDate(d.era, d.yearOfEra, month, dayOfYear - DaysBeforeMonth(month)))
  }

  //---------------------------------------------------------------------------
  // Arithmetic
  //---------------------------------------------------------------------------

  /** Adds years within the era and re-validates; no clamping of the day. */
  function PlusYears(d: HijrahDate, years: int): (r: Result<HijrahDate>)
    requires IsValid(d)
    ensures r.Ok? <==> IsValid(d.(yearOfEra := d.yearOfEra + years))
    ensures r.Ok? ==> r.value == d.(yearOfEra := d.yearOfEra + years)
    ensures !(MIN_YEAR_OF_ERA <= d.yearOfEra + years <= MAX_YEAR_OF_ERA) ==>
      r == Err(FieldOutOfRange(YearOfEraRule, d.yearOfEra + years, MIN_YEAR_OF_ERA, MAX_YEAR_OF_ERA))
    ensures MIN_YEAR_OF_ERA <= d.yearOfEra + years <= MAX_YEAR_OF_ERA && r.Err? ==> FailsOn(r, DayOfMonthRule)
  {
    Of(d.era, d.yearOfEra + years, d.monthOfYear, d.dayOfMonth)
  }

  function MinusYears(d: HijrahDate, years: int): (r: Result<HijrahDate>)
    requires IsValid(d)
    ensures r.Ok? <==> IsValid(d.(yearOfEra := d.yearOfEra - years))
    ensures r.Ok? ==> r.value == d.(yearOfEra := d.yearOfEra - years)
    ensures !(MIN_YEAR_OF_ERA <= d.yearOfEra - years <= MAX_YEAR_OF_ERA) ==>
      r == Err(FieldOutOfRange(YearOfEraRule, d.yearOfEra - years, MIN_YEAR_OF_ERA, MAX_YEAR_OF_ERA))
    ensures MIN_YEAR_OF_ERA <= d.yearOfEra - years <= MAX_YEAR_OF_ERA && r.Err? ==> FailsOn(r, DayOfMonthRule)
  {
    PlusYears(d, -years)
  }

  /**
   * The fields `months` months after `d` within its era, before validation:
   * the month carries into the year of era by floor division, the day is kept.
   */
  function ShiftMonths(d: HijrahDate, months: int): (s: HijrahDate)
    ensures s.era == d.era && s.dayOfMonth == d.dayOfMonth && 1 <= s.monthOfYear <= 12
    ensures s.yearOfEra * 12 + s.monthOfYear == d.yearOfEra * 12 + d.monthOfYear + months
  {
    var total := d.monthOfYear - 1 + months;
    HijrahDate(d.era, d.yearOfEra + total / 12, total % 12 + 1, d.dayOfMonth)
  }

  /** Adds months within the era, carrying into the year of era, and re-validates; no clamping of the day. */
  function PlusMonths(d: HijrahDate, months: int): (r: Result<HijrahDate>)
    requires IsValid(d)
    ensures r.Ok? <==> IsValid(ShiftMonths(d, months))
    ensures r.Ok? ==> r.value == ShiftMonths(d, months)
    ensures !(MIN_YEAR_OF_ERA <= ShiftMonths(d, months).yearOfEra <= MAX_YEAR_OF_ERA) ==>
      r == Err(FieldOutOfRange(YearOfEraRule, ShiftMonths(d, months).yearOfEra, MIN_YEAR_OF_ERA, MAX_YEAR_OF_ERA))
    ensures MIN_YEAR_OF_ERA <= ShiftMonths(d, months).yearOfEra <= MAX_YEAR_OF_ERA && r.Err? ==>
      FailsOn(r, DayOfMonthRule)
  {
    var s := ShiftMonths(d, months);
    Of(s.era, s.yearOfEra, s.monthOfYear, s.dayOfMonth)
  }

  function MinusMonths(d: HijrahDate, months: int): (r: Result<HijrahDate>)
    requires IsValid(d)
    ensures r.Ok? <==> IsValid(ShiftMonths(d, -months))
    ensures r.Ok? ==> r.value == ShiftMonths(d, -months)
    ensures !(MIN_YEAR_OF_ERA <= ShiftMonths(d, -months).yearOfEra <= MAX_YEAR_OF_ERA) ==>
      r == Err(FieldOutOfRange(YearOfEraRule, ShiftMonths(d, -months).yearOfEra, MIN_YEAR_OF_ERA, MAX_YEAR_OF_ERA))
    ensures MIN_YEAR_OF_ERA <= ShiftMonths(d, -months).yearOfEra <= MAX_YEAR_OF_ERA && r.Err? ==>
      FailsOn(r, DayOfMonthRule)
  {
    PlusMonths(d, -months)
  }

  /** Moving a valid date forward by some years and back by as many returns it. */
  lemma PlusYearsThenMinusYears(d: HijrahDate, years: int)
    requires IsValid(d) && PlusYears(d, years).Ok?
    ensures MinusYears(PlusYears(d, years).value, years) == Ok(d)
  {
  }

  /** Two month shifts that cancel out give back the fields shifted. */
  lemma ShiftMonthsCancel(d: HijrahDate, months: int)
    requires 1 <= d.monthOfYear <= 12
    ensures ShiftMonths(ShiftMonths(d, months), -months) == d
  {
    var b := ShiftMonths(ShiftMonths(d, months), -months);
    assert b.yearOfEra * 12 + b.monthOfYear == d.yearOfEra * 12 + d.monthOfYear;
  }

  /** Moving a valid date forward by some months and back by as many returns it. */
  lemma PlusMonthsThenMinusMonths(d: HijrahDate, months: int)
    requires IsValid(d) && PlusMonths(d, months).Ok?
    ensures MinusMonths(PlusMonths(d, months).value, months) == Ok(d)
  {
    ShiftMonthsCancel(d, months);
  }

  /**
   * No clamping: the leap day 1431-12-30 has no counterpart in 1432, and 30
   * Muharram none in Safar, so the shifted day fails naming the day of month.
   */
  lemma ShiftedDayMustExist()
    ensures PlusYears(HijrahDate(Hijrah, 1431, 12, 30), 1) == Err(FieldOutOfRange(DayOfMonthRule, 30, 1, 29))
    ensures PlusMonths(HijrahDate(Hijrah, 1430, 1, 30), 1) == Err(FieldOutOfRange(DayOfMonthRule, 30, 1, 29))
  {
    LeapYearsOfCycle(21);
    LeapYearsOfCycle(22);
    LeapYearsOfCycle(20);
  }

  /** Replacing the year of era and then restoring it gives back the date. */
  lemma WithYearOfEraRestores(d: HijrahDate, yearOfEra: int)
    requires IsValid(d) && WithYearOfEra(d, yearOfEra).Ok?
    ensures WithYearOfEra(WithYearOfEra(d, yearOfEra).value, d.yearOfEra) == Ok(d)
  {
  }

  /** Replacing the era and year and then restoring them gives back the date. */
  lemma WithYearRestores(d: HijrahDate, era: HijrahEra, yearOfEra: int)
    requires IsValid(d) && WithYear(d, era, yearOfEra).Ok?
    ensures WithYear(WithYear(d, era, yearOfEra).value, d.era, d.yearOfEra) == Ok(d)
  {
  }

  /** Replacing the month and then restoring it gives back the date. */
  lemma WithMonthOfYearRestores(d: HijrahDate, monthOfYear: int)
    requires IsValid(d) && WithMonthOfYear(d, monthOfYear).Ok?
    ensures WithMonthOfYear(WithMonthOfYear(d, monthOfYear).value, d.monthOfYear) == Ok(d)
  {
  }

  /** Adds days through the canonical day axis; a year of era beyond 9999 fails. */
  function PlusDays(d: HijrahDate, days: int): (r: Result<HijrahDate>)
    requires IsValid(d)
    ensures r.Ok? ==> IsValid(r.value) && EpochDay(r.value) == EpochDay(d) + days
    ensures r.Err? ==> FailsOn(r, YearOfEraRule)
    ensures r.Err? ==> FromEpochDay(EpochDay(d) + days).yearOfEra > MAX_YEAR_OF_ERA
  {
    var moved := FromEpochDay(EpochDay(d) + days);
    if moved.yearOfEra > MAX_YEAR_OF_ERA then
      Err(FieldOutOfRange(YearOfEraRule, moved.yearOfEra, MIN_YEAR_OF_ERA, MAX_YEAR_OF_ERA))
    else Ok(moved)
  }

  function MinusDays(d: HijrahDate, days: int): (r: Result<HijrahDate>)
    requires IsValid(d)
    ensures r.Ok? ==> IsValid(r.value) && EpochDay(r.value) == EpochDay(d) - days
    ensures r.Err? ==> FailsOn(r, YearOfEraRule)
  {
    PlusDays(d, Negate(days))
  }

  function PlusWeeks(d: HijrahDate, weeks: int): (r: Result<HijrahDate>)
    requires IsValid(d)
    ensures r.Ok? ==> IsValid(r.value) && EpochDay(r.value) == EpochDay(d) + 7 * weeks
    ensures r.Err? ==> FailsOn(r, YearOfEraRule)
  {
    PlusDays(d, 7 * weeks)
  }

  function MinusWeeks(d: HijrahDate, weeks: int): (r: Result<HijrahDate>)
    requires IsValid(d)
    ensures r.Ok? ==> IsValid(r.value) && EpochDay(r.value) == EpochDay(d) - 7 * weeks
    ensures r.Err? ==> FailsOn(r, YearOfEraRule)
  {
    PlusWeeks(d, Negate(weeks))
  }

  /** The day `days` after `d` on the day axis is `target`. */
  lemma StepLandsOn(d: HijrahDate, days: int, target: HijrahDate)
    requires IsValid(d) && IsValid(target)
    requires EpochDay(target) == EpochDay(d) + days
    ensures FromEpochDay(EpochDay(d) + days) == target
  {
    EpochDayInjective(FromEpochDay(EpochDay(d) + days), target);
  }

  /** Adding days lands exactly on the date found at that distance on the day axis. */
  lemma PlusDaysLandsOn(d: HijrahDate, days: int, target: HijrahDate)
    requires IsValid(d) && IsValid(target)
    requires EpochDay(target) == EpochDay(d) + days
    ensures PlusDays(d, days) == Ok(target)
  {
    var r := PlusDays(d, days);
    StepLandsOn(d, days, target);
    if r.Ok? {
      EpochDayInjective(r.value, target);
    }
  }

  /** Subtracting days lands exactly on the date found that far back on the day axis. */
  lemma MinusDaysLandsOn(d: HijrahDate, days: int, target: HijrahDate)
    requires IsValid(d) && IsValid(target)
    requires EpochDay(target) == EpochDay(d) - days
    ensures MinusDays(d, days) == Ok(target)
  {
    PlusDaysLandsOn(d, Negate(days), target);
  }

  /** Adding weeks lands on the date found seven days per week further on. */
  lemma PlusWeeksLandsOn(d: HijrahDate, weeks: int, target: HijrahDate)
    requires IsValid(d) && IsValid(target)
    requires EpochDay(target) == EpochDay(d) + 7 * weeks
    ensures PlusWeeks(d, weeks) == Ok(target)
  {
    PlusDaysLandsOn(d, 7 * weeks, target);
  }

  /** Subtracting weeks lands on the date found seven days per week back. */
  lemma MinusWeeksLandsOn(d: HijrahDate, weeks: int, target: HijrahDate)
    requires IsValid(d) && IsValid(target)
    requires EpochDay(target) == EpochDay(d) - 7 * weeks
    ensures MinusWeeks(d, weeks) == Ok(target)
  {
    PlusWeeksLandsOn(d, Negate(weeks), target);
  }

  /** Within a month, adding days moves only the day of month. */
  lemma PlusDaysWithinMonth(d: HijrahDate, days: int)
    requires IsValid(d)
    requires 1 <= d.dayOfMonth + days <= MonthLength(DateProlepticYear(d), d.monthOfYear)
    ensures PlusDays(d, days) == Ok(d.(dayOfMonth := d.dayOfMonth + days))
  {
    PlusDaysLandsOn(d, days, d.(dayOfMonth := d.dayOfMonth + days));
  }

  /** Subtracting what was added restores the date, whenever the addition succeeds. */
  lemma PlusDaysThenMinusDays(d: HijrahDate, days: int)
    requires IsValid(d)
    requires PlusDays(d, days).Ok?
    ensures MinusDays(PlusDays(d, days).value, days) == Ok(d)
  {
    MinusDaysLandsOn(PlusDays(d, days).value, days, d);
  }

  /** Every valid date lies between the start of proleptic year -9998 and the end of year 9999. */
  lemma EpochDayBounds(d: HijrahDate)
    requires IsValid(d)
    ensures HIJRAH_EPOCH_DAY + DaysBeforeYear(-9998) <= EpochDay(d) < HIJRAH_EPOCH_DAY + DaysBeforeYear(10000)
  {
    var year := DateProlepticYear(d);
    EpochDayWithinYear(d);
    DaysBeforeYearBounds(-9998, year);
    DaysBeforeYearBounds(year + 1, 10000);
  }

  /** A day after the end of proleptic year 9999 is beyond year of era 9999. */
  lemma FarAfterFails(e: int)
    requires e >= HIJRAH_EPOCH_DAY + DaysBeforeYear(10000)
    ensures FromEpochDay(e).yearOfEra > MAX_YEAR_OF_ERA
  {
    var moved := FromEpochDay(e);
    var p := DateProlepticYear(moved);
    EpochDayWithinYear(moved);
    if p < 10000 {
      DaysBeforeYearBounds(p + 1, 10000);
      assert false;
    }
  }

  /** A day before the start of proleptic year -9998 is beyond year 9999 before the era. */
  lemma FarBeforeFails(e: int)
    requires e < HIJRAH_EPOCH_DAY + DaysBeforeYear(-9998)
    ensures FromEpochDay(e).yearOfEra > MAX_YEAR_OF_ERA
  {
    var moved := FromEpochDay(e);
    var p := DateProlepticYear(moved);
    EpochDayWithinYear(moved);
    if p > -9999 {
      DaysBeforeYearBounds(-9998, p);
      assert false;
    }
  }

  /** Adding Integer.MAX_VALUE days to any date runs past year of era 9999. */
  lemma PlusDaysOverflow(d: HijrahDate, days: int)
    requires IsValid(d)
    requires days >= 0x7fff_ffff
    ensures FailsOn(PlusDays(d, days), YearOfEraRule)
  {
    EpochDayBounds(d);
    DaysBeforeYearBounds(-9998, 10000);
    FarAfterFails(EpochDay(d) + days);
  }

  /** Subtracting Integer.MAX_VALUE days from any date runs past year 9999 before the era. */
  lemma MinusDaysOverflow(d: HijrahDate, days: int)
    requires IsValid(d)
    requires days >= 0x7fff_ffff
    ensures FailsOn(MinusDays(d, days), YearOfEraRule)
  {
    EpochDayBounds(d);
    DaysBeforeYearBounds(-9998, 10000);
    FarBeforeFails(EpochDay(d) + Negate(days));
  }

  /** Adding Integer.MAX_VALUE weeks to any date runs past year of era 9999. */
  lemma PlusWeeksOverflow(d: HijrahDate, weeks: int)
    requires IsValid(d)
    requires weeks >= 0x7fff_ffff
    ensures FailsOn(PlusWeeks(d, weeks), YearOfEraRule)
  {
    PlusDaysOverflow(d, 7 * weeks);
  }

  /** Subtracting Integer.MAX_VALUE weeks from any date runs past year 9999 before the era. */
  lemma MinusWeeksOverflow(d: HijrahDate, weeks: int)
    requires IsValid(d)
    requires weeks >= 0x7fff_ffff
    ensures FailsOn(MinusWeeks(d, weeks), YearOfEraRule)
  {
    EpochDayBounds(d);
    DaysBeforeYearBounds(-9998, 10000);
    FarBeforeFails(EpochDay(d) + 7 * Negate(weeks));
  }

  //---------------------------------------------------------------------------
  // Queries, ordering and text
  //---------------------------------------------------------------------------

  /** The generic field query: only this chronology's date rules are supported. */
  function Get(d: HijrahDate, rule: Rule): (r: Result<int>)
    requires IsValid(d)
    ensures r.Err? <==> rule.chronology != HijrahChronology || rule.field == WeekOfWeekyear || rule.field == HourOfDay
    ensures r.Err? ==> r.error == UnsupportedField(rule)
    ensures rule == Rule(HijrahChronology, Era) ==> r == Ok(EraValue(d.era))
    ensures rule == YearOfEraRule ==> r == Ok(d.yearOfEra)
    ensures rule == MonthOfYearRule ==> r == Ok(d.monthOfYear)
    ensures rule == DayOfMonthRule ==> r == Ok(d.dayOfMonth)
    ensures rule == DayOfYearRule ==> r == Ok(GetDayOfYear(d)) && 1 <= r.value <= YearLength(DateProlepticYear(d))
    ensures rule == Rule(HijrahChronology, DayOfWeek) ==> r == Ok(GetDayOfWeek(d)) && 1 <= r.value <= 7
  {
    if rule.chronology != HijrahChronology then Err(UnsupportedField(rule))
    else match rule.field
      case Era => Ok(EraValue(d.era))
      case YearOfEra => Ok(d.yearOfEra)
      case MonthOfYear => Ok(d.monthOfYear)
      case DayOfMonth => Ok(d.dayOfMonth)
      case DayOfYear => Ok(GetDayOfYear(d))
      case DayOfWeek => Ok(GetDayOfWeek(d))
      case _ => Err(UnsupportedField(rule))
  }

  /** Dates compare by their position on the canonical day axis. */
  function CompareTo(a: HijrahDate, b: HijrahDate): (r: int)
    requires IsValid(a) && IsValid(b)
    ensures r == -1 || r == 0 || r == 1
    ensures r == 0 <==> a == b
  {
    if EpochDay(a) == EpochDay(b) then EpochDayInjective(a, b); 0
    else if EpochDay(a) < EpochDay(b) then -1
    else 1
  }

  function IsBefore(a: HijrahDate, b: HijrahDate): (r: bool)
    requires IsValid(a) && IsValid(b)
    ensures r <==> CompareTo(a, b) < 0
  {
    EpochDay(a) < EpochDay(b)
  }

  function IsAfter(a: HijrahDate, b: HijrahDate): (r: bool)
    requires IsValid(a) && IsValid(b)
    ensures r <==> CompareTo(a, b) > 0
  {
    EpochDay(a) > EpochDay(b)
  }

  lemma CompareToAntisymmetric(a: HijrahDate, b: HijrahDate)
    requires IsValid(a) && IsValid(b)
    ensures CompareTo(a, b) == -CompareTo(b, a)
  {
  }

  lemma CompareToTransitive(a: HijrahDate, b: HijrahDate, c: HijrahDate)
    requires IsValid(a) && IsValid(b) && IsValid(c)
    requires CompareTo(a, b) < 0 && CompareTo(b, c) < 0
    ensures CompareTo(a, c) < 0
  {
  }

  predicate Ascending(dates: seq<HijrahDate>)
  {
    && (forall i :: 0 <= i < |dates| ==> IsValid(dates[i]))
    && (forall i :: 0 <= i < |dates| - 1 ==> EpochDay(dates[i]) < EpochDay(dates[i + 1]))
  }

  /** Dates listed in written order are in ascending order. */
  lemma AscendingByFields(dates: seq<HijrahDate>)
    requires forall i :: 0 <= i < |dates| ==> IsValid(dates[i])
    requires forall i :: 0 <= i < |dates| - 1 ==> WrittenBefore(dates[i], dates[i + 1])
    ensures Ascending(dates)
  {
    forall i | 0 <= i < |dates| - 1
      ensures EpochDay(dates[i]) < EpochDay(dates[i + 1])
    {
      EpochDayMonotone(dates[i], dates[i + 1]);
    }
  }

  lemma {:induction false} AscendingIsStrict(dates: seq<HijrahDate>, i: int, j: int)
    requires Ascending(dates)
    requires 0 <= i < j < |dates|
    ensures EpochDay(dates[i]) < EpochDay(dates[j])
    decreases j - i
  {
    if i + 1 < j {
      AscendingIsStrict(dates, i + 1, j);
    }
  }

  /**
   * For a list of dates in ascending order, `compareTo`, `isBefore`, `isAfter`
   * and `equals` agree with the positions in the list.
   */
  lemma ComparisonsFollowPositions(dates: seq<HijrahDate>, i: int, j: int)
    requires Ascending(dates)
    requires 0 <= i < |dates| && 0 <= j < |dates|
    ensures i < j ==> CompareTo(dates[i], dates[j]) < 0 && IsBefore(dates[i], dates[j])
                      && !IsAfter(dates[i], dates[j]) && dates[i] != dates[j]
    ensures i > j ==> CompareTo(dates[i], dates[j]) > 0 && !IsBefore(dates[i], dates[j])
                      && IsAfter(dates[i], dates[j]) && dates[i] != dates[j]
    ensures i == j ==> CompareTo(dates[i], dates[j]) == 0 && !IsBefore(dates[i], dates[j])
                       && !IsAfter(dates[i], dates[j])
  {
    if i < j {
      AscendingIsStrict(dates, i, j);
    } else if j < i {
      AscendingIsStrict(dates, j, i);
    }
  }

  /** `{yearOfEra}-{MM}-{dd} (Hijrah)`. */
  function ToString(d: HijrahDate): (s: string)
    requires IsValid(d)
    ensures ParseString(s) == Some((d.yearOfEra, d.monthOfYear, d.dayOfMonth))
  {
    DateTextRoundTrip(d.yearOfEra, d.monthOfYear, d.dayOfMonth);
    var text := DateText(d.yearOfEra, d.monthOfYear, d.dayOfMonth);
    assert (text + " (Hijrah)")[..|text|] == text;
    text + " (Hijrah)"
  }

  /** Reads a string of the ToString form back into (year of era, month, day). */
  function ParseString(s: string): Option<(int, int, int)>
  {
    if |s| >= 9 && s[|s| - 9..] == " (Hijrah)" then ParseDateText(s[..|s| - 9]) else None
  }

  //---------------------------------------------------------------------------
  // Conversion to and from the ISO calendar
  //---------------------------------------------------------------------------

  function ToLocalDate(d: HijrahDate): (r: Iso.LocalDate)
    requires IsValid(d)
    ensures Iso.IsValid(r) && Iso.EpochDay(r) == EpochDay(d)
  {
    Iso.FromEpochDay(EpochDay(d))
  }

  /** `hijrahDate(DateProvider)`: the Hijrah date of the same day. */
  function FromLocalDate(date: Iso.LocalDate): (r: Result<HijrahDate>)
    requires Iso.IsValid(date)
    ensures r.Ok? ==> IsValid(r.value) && EpochDay(r.value) == Iso.EpochDay(date)
    ensures r.Err? ==> FailsOn(r, YearOfEraRule)
  {
    var d := FromEpochDay(Iso.EpochDay(date));
    if d.yearOfEra > MAX_YEAR_OF_ERA then
      Err(FieldOutOfRange(YearOfEraRule, d.yearOfEra, MIN_YEAR_OF_ERA, MAX_YEAR_OF_ERA))
    else Ok(d)
  }

  /** The ISO date of a Hijrah date is the valid ISO date at the same position of the day axis. */
  lemma ToLocalDateOfSameDay(d: HijrahDate, local: Iso.LocalDate)
    requires IsValid(d) && Iso.IsValid(local)
    requires Iso.EpochDay(local) == EpochDay(d)
    ensures ToLocalDate(d) == local
  {
    Iso.FromEpochDayRoundTrip(local);
  }

  /** Converting to the ISO calendar and back gives the date itself. */
  lemma LocalDateRoundTrip(d: HijrahDate)
    requires IsValid(d)
    ensures FromLocalDate(ToLocalDate(d)) == Ok(d)
  {
    FromEpochDayRoundTrip(d);
  }

  /** The day of week of a Hijrah date is that of the ISO date of the same day. */
  lemma DayOfWeekMatchesLocalDate(d: HijrahDate)
    requires IsValid(d)
    ensures GetDayOfWeek(d) == Iso.DayOfWeek(Iso.EpochDay(ToLocalDate(d)))
  {
  }

  /** The day of week advances by one per day and wraps from 7 to 1. */
  lemma DayOfWeekOfNextDay(d: HijrahDate)
    requires IsValid(d)
    requires PlusDays(d, 1).Ok?
    ensures GetDayOfWeek(PlusDays(d, 1).value) == if GetDayOfWeek(d) == 7 then 1 else GetDayOfWeek(d) + 1
  {
    Iso.DayOfWeekNext(EpochDay(d));
  }

  //---------------------------------------------------------------------------
  // The fixed scenarios: HIJRAH 1430-03-05, which is 2009-03-02 in the ISO calendar
  //---------------------------------------------------------------------------

  const TestDate := HijrahDate(Hijrah, 1430, 3, 5)

  /** The epoch anchor is 0622-07-19 of the proleptic Gregorian calendar. */
  lemma EpochAnchor()
    ensures Iso.IsValid(Iso.LocalDate(622, 7, 19))
    ensures HIJRAH_EPOCH_DAY == Iso.EpochDay(Iso.LocalDate(622, 7, 19))
  {
  }

  /** 1430 is a common year; months 1 and 2 have 30 and 29 days, so 03-05 is day 64. */
  lemma TestDateFields()
    ensures Of(Hijrah, 1430, 3, 5) == Ok(TestDate)
    ensures !DateIsLeapYear(TestDate) && YearLength(1430) == 354
    ensures MonthLength(1430, 1) == 30 && MonthLength(1430, 2) == 29
    ensures GetDayOfYear(TestDate) == 64
  {
  }

  /** 1430-03-05 and the ISO date 2009-03-02 sit at the same position of the day axis. */
  lemma TestDateEpochDay()
    ensures EpochDay(TestDate) == 733467
    ensures Iso.IsValid(Iso.LocalDate(2009, 3, 2)) && Iso.EpochDay(Iso.LocalDate(2009, 3, 2)) == 733467
  {
    assert DaysBeforeYear(1430) == 506390;
  }

  /** 1430-03-05 is the ISO date 2009-03-02. */
  lemma TestDateIsLocalDate()
    ensures ToLocalDate(TestDate) == Iso.LocalDate(2009, 3, 2)
  {
    TestDateEpochDay();
    ToLocalDateOfSameDay(TestDate, Iso.LocalDate(2009, 3, 2));
  }

  /** 1430-03-05 to 1430-03-12 fall on Monday (1) to Sunday (7) and Monday again. */
  lemma TestWeekDays(day: int)
    requires 5 <= day <= 12
    ensures GetDayOfWeek(TestDate.(dayOfMonth := day)) == (day - 5) % 7 + 1
  {
  }

  /** Each factory and replacement of the tests fails on the field it names. */
  lemma TestValidationFailures()
    ensures FailsOn(Of(Hijrah, 10000, 3, 5), YearOfEraRule)
    ensures FailsOn(Of(Hijrah, 1430, 13, 5), MonthOfYearRule)
    ensures FailsOn(Of(Hijrah, 1430, 3, 40), DayOfMonthRule)
    ensures FailsOn(WithYearOfEra(TestDate, -1), YearOfEraRule)
    ensures FailsOn(WithYearOfEra(TestDate, 10000), YearOfEraRule)
    ensures FailsOn(WithYear(TestDate, Hijrah, -1), YearOfEraRule)
    ensures FailsOn(WithYear(TestDate, Hijrah, 10000), YearOfEraRule)
    ensures FailsOn(WithMonthOfYear(TestDate, -1), MonthOfYearRule)
    ensures FailsOn(WithMonthOfYear(TestDate, 13), MonthOfYearRule)
    ensures FailsOn(WithDayOfMonth(TestDate, 0), DayOfMonthRule)
    ensures FailsOn(WithDayOfMonth(TestDate, 32), DayOfMonthRule)
    ensures FailsOn(WithDayOfYear(TestDate, 0), DayOfYearRule)
    ensures FailsOn(WithDayOfYear(HijrahDate(Hijrah, 2008, 2, 1), 367), DayOfYearRule)
  {
  }

  /** Replacements of the tests that succeed, including day of year 15 as 01-15. */
  lemma TestReplacements()
    ensures WithYearOfEra(TestDate, 1545) == Ok(HijrahDate(Hijrah, 1545, 3, 5))
    ensures WithYear(TestDate, BeforeHijrah, 1540) == Ok(HijrahDate(BeforeHijrah, 1540, 3, 5))
    ensures WithMonthOfYear(TestDate, 4) == Ok(HijrahDate(Hijrah, 1430, 4, 5))
    ensures WithDayOfMonth(TestDate, 4) == Ok(HijrahDate(Hijrah, 1430, 3, 4))
    ensures WithDayOfYear(TestDate, 15) == Ok(HijrahDate(Hijrah, 1430, 1, 15))
  {
  }

  /** Year and month arithmetic of the tests stays in the era and keeps the day. */
  lemma TestYearMonthArithmetic()
    ensures PlusYears(TestDate, 10) == Ok(HijrahDate(Hijrah, 1440, 3, 5))
    ensures MinusYears(TestDate, 10) == Ok(HijrahDate(Hijrah, 1420, 3, 5))
    ensures PlusMonths(TestDate, 5) == Ok(HijrahDate(Hijrah, 1430, 8, 5))
    ensures MinusMonths(TestDate, 1) == Ok(HijrahDate(Hijrah, 1430, 2, 5))
  {
  }

  /** plusDays(2) of the tests. */
  lemma TestPlusDays()
    ensures PlusDays(TestDate, 2) == Ok(HijrahDate(Hijrah, 1430, 3, 7))
  {
    PlusDaysWithinMonth(TestDate, 2);
  }

  /** minusDays(2) of the tests. */
  lemma TestMinusDays()
    ensures MinusDays(TestDate, 2) == Ok(HijrahDate(Hijrah, 1430, 3, 3))
  {
    MinusDaysLandsOn(TestDate, 2, HijrahDate(Hijrah, 1430, 3, 3));
  }

  /** plusWeeks(2) of the tests. */
  lemma TestPlusWeeks()
    ensures PlusWeeks(TestDate, 2) == Ok(HijrahDate(Hijrah, 1430, 3, 19))
  {
    PlusWeeksLandsOn(TestDate, 2, HijrahDate(Hijrah, 1430, 3, 19));
  }

  /** minusWeeks(2) of the tests crosses into the 29-day month 2. */
  lemma TestMinusWeeks()
    ensures MinusWeeks(TestDate, 2) == Ok(HijrahDate(Hijrah, 1430, 2, 20))
  {
    MinusWeeksLandsOn(TestDate, 2, HijrahDate(Hijrah, 1430, 2, 20));
  }

  /** The out-of-range year and month arithmetic of the tests fails on the year of era. */
  lemma TestArithmeticFailures()
    ensures FailsOn(PlusYears(TestDate, 9999), YearOfEraRule)
    ensures FailsOn(MinusYears(TestDate, 9999), YearOfEraRule)
    ensures FailsOn(PlusMonths(TestDate, 0x7fff_ffff), YearOfEraRule)
    ensures FailsOn(MinusMonths(TestDate, 0x7fff_ffff), YearOfEraRule)
  {
  }

  /** plusDays(Integer.MAX_VALUE) of the tests fails on the year of era. */
  lemma TestPlusDaysOverflow()
    ensures FailsOn(PlusDays(TestDate, 0x7fff_ffff), YearOfEraRule)
  {
    PlusDaysOverflow(TestDate, 0x7fff_ffff);
  }

  /** minusDays(Integer.MAX_VALUE) of the tests fails on the year of era. */
  lemma TestMinusDaysOverflow()
    ensures FailsOn(MinusDays(TestDate, 0x7fff_ffff), YearOfEraRule)
  {
    MinusDaysOverflow(TestDate, 0x7fff_ffff);
  }

  /** plusWeeks(Integer.MAX_VALUE) of the tests fails on the year of era. */
  lemma TestPlusWeeksOverflow()
    ensures FailsOn(PlusWeeks(TestDate, 0x7fff_ffff), YearOfEraRule)
  {
    PlusWeeksOverflow(TestDate, 0x7fff_ffff);
  }

  /** minusWeeks(Integer.MAX_VALUE) of the tests fails on the year of era. */
  lemma TestMinusWeeksOverflow()
    ensures FailsOn(MinusWeeks(TestDate, 0x7fff_ffff), YearOfEraRule)
  {
    MinusWeeksOverflow(TestDate, 0x7fff_ffff);
  }

  /** The dates of the ordering test, in ascending order. */
  const OrderedDates := [
    HijrahDate(Hijrah, 1, 1, 1), HijrahDate(Hijrah, 1, 1, 2), HijrahDate(Hijrah, 1, 1, 30),
    HijrahDate(Hijrah, 1, 2, 1), HijrahDate(Hijrah, 1, 2, 29), HijrahDate(Hijrah, 1, 12, 29),
    HijrahDate(Hijrah, 2, 1, 1), HijrahDate(Hijrah, 2, 12, 29), HijrahDate(Hijrah, 3, 1, 1),
    HijrahDate(Hijrah, 3, 12, 29), HijrahDate(Hijrah, 4500, 1, 1), HijrahDate(Hijrah, 4500, 12, 29)]

  lemma OrderedDatesAscending()
    ensures Ascending(OrderedDates)
  {
    AscendingByFields(OrderedDates);
  }

  /** The year, month and day part of the tests' text form. */
  lemma TestDateText()
    ensures DateText(1430, 3, 5) == "1430-03-05"
  {
    assert NatToString(1) == "1";
    assert NatToString(14) == "14";
    assert NatToString(143) == "143";
    assert NatToString(1430) == "1430";
    assert TwoDigits(3) == "03" && TwoDigits(5) == "05";
  }

  lemma TestToString()
    ensures ToString(TestDate) == "1430-03-05 (Hijrah)"
  {
    TestDateText();
  }
}
