/**
 * The imperial-era table of the Japanese calendar and the two lookups built
 * on it: from (era, year of era) to the proleptic Gregorian year, and from a
 * Gregorian date to the era in force on that day.
 *
 * The table lists one row of four ints per era, most recent era first:
 * start year, start month, start day and era code.  Era code 0 is the
 * synthetic era before year 1, whose years count backwards (`1 - year`).
 */
module JapaneseEras {
  import opened DecimalText
  import Iso = IsoCalendar

  /** The eras, in code order 0 to 6. */
  datatype JapaneseEra = Bc | Ad | Keio | Meiji | Taisho | Showa | Heisei

  /** The era table, most recent era first: start year, month, day and era code per row. */
  const ERA_DATA: seq<int> := [
    1989, 1, 8, 6,
    1926, 12, 25, 5,
    1912, 7, 30, 4,
    1868, 9, 8, 3,
    1865, 4, 7, 2,
    1, 1, 1, 1,
    0, 1, 1, 0]

  const ERA_ARRAY_SIZE := 4
  const POSITION_YEAR := 0
  const TOTAL_ERA_SIZE := |ERA_DATA| / ERA_ARRAY_SIZE

  function EraValue(era: JapaneseEra): (code: int)
    ensures 0 <= code < TOTAL_ERA_SIZE
  {
    match era
    case Bc => 0
    case Ad => 1
    case Keio => 2
    case Meiji => 3
    case Taisho => 4
    case Showa => 5
    case Heisei => 6
  }

  /** The era with a given code. */
  function EraOfValue(code: int): (era: JapaneseEra)
    requires 0 <= code < TOTAL_ERA_SIZE
    ensures EraValue(era) == code
  {
    if code == 0 then Bc
    else if code == 1 then Ad
    else if code == 2 then Keio
    else if code == 3 then Meiji
    else if code == 4 then Taisho
    else if code == 5 then Showa
    else Heisei
  }

  /** The era's name as the date's text form shows it. */
  function EraName(era: JapaneseEra): string
  {
    match era
    case Bc => "BC"
    case Ad => "AD"
    case Keio => "KEIO"
    case Meiji => "MEIJI"
    case Taisho => "TAISHO"
    case Showa => "SHOWA"
    case Heisei => "HEISEI"
  }

  /** The era named by `name`, if any. */
  function EraOfName(name: string): (r: Option<JapaneseEra>)
    ensures r.Some? ==> EraName(r.value) == name
  {
    if name == "BC" then Some(Bc)
    else if name == "AD" then Some(Ad)
    else if name == "KEIO" then Some(Keio)
    else if name == "MEIJI" then Some(Meiji)
    else if name == "TAISHO" then Some(Taisho)
    else if name == "SHOWA" then Some(Showa)
    else if name == "HEISEI" then Some(Heisei)
    else None
  }

  /** Names are distinct and read back to their era; none contains a space. */
  lemma EraNameRoundTrip(era: JapaneseEra)
    ensures EraOfName(EraName(era)) == Some(era)
    ensures |EraName(era)| >= 2 && forall i :: 0 <= i < |EraName(era)| ==> EraName(era)[i] != ' '
  {
  }

  //---------------------------------------------------------------------------
  // The shape of the table
  //---------------------------------------------------------------------------

  /** The code column of row `k`. */
  function CodeAt(k: int): int
    requires 0 <= k < TOTAL_ERA_SIZE
  {
    ERA_DATA[ERA_ARRAY_SIZE * k + 3]
  }

  /** The start date of row `k`. */
  function StartAt(k: int): Iso.LocalDate
    requires 0 <= k < TOTAL_ERA_SIZE
  {
    Iso.LocalDate(ERA_DATA[ERA_ARRAY_SIZE * k + POSITION_YEAR], ERA_DATA[ERA_ARRAY_SIZE * k + 1],
                  ERA_DATA[ERA_ARRAY_SIZE * k + 2])
  }

  /** Lexicographic order of (year, month, day). */
  predicate OnOrBefore(a: Iso.LocalDate, b: Iso.LocalDate)
  {
    a.year < b.year || (a.year == b.year && (a.month < b.month || (a.month == b.month && a.day <= b.day)))
  }

  /**
   * Seven rows of four; row k carries code `TOTAL_ERA_SIZE - k - 1`, so the
   * code a scan derives from its row counter is the code the row stores.
   */
  lemma TableShape()
    ensures |ERA_DATA| == 28 && TOTAL_ERA_SIZE == 7
    ensures forall k :: 0 <= k < TOTAL_ERA_SIZE ==> CodeAt(k) == TOTAL_ERA_SIZE - k - 1
  {
  }

  /** The start dates of the seven rows. */
  lemma StartRows()
    ensures TOTAL_ERA_SIZE == 7
    ensures StartAt(0) == Iso.LocalDate(1989, 1, 8) && StartAt(1) == Iso.LocalDate(1926, 12, 25)
    ensures StartAt(2) == Iso.LocalDate(1912, 7, 30) && StartAt(3) == Iso.LocalDate(1868, 9, 8)
    ensures StartAt(4) == Iso.LocalDate(1865, 4, 7) && StartAt(5) == Iso.LocalDate(1, 1, 1)
    ensures StartAt(6) == Iso.LocalDate(0, 1, 1)
  {
    YearColumn();
    MonthColumn();
    DayColumn();
  }

  lemma YearColumn()
    ensures |ERA_DATA| == 28
    ensures ERA_DATA[0] == 1989 && ERA_DATA[4] == 1926 && ERA_DATA[8] == 1912 && ERA_DATA[12] == 1868
    ensures ERA_DATA[16] == 1865 && ERA_DATA[20] == 1 && ERA_DATA[24] == 0
  {
  }

  lemma MonthColumn()
    ensures ERA_DATA[1] == 1 && ERA_DATA[5] == 12 && ERA_DATA[9] == 7 && ERA_DATA[13] == 9
    ensures ERA_DATA[17] == 4 && ERA_DATA[21] == 1 && ERA_DATA[25] == 1
  {
  }

  lemma DayColumn()
    ensures ERA_DATA[2] == 8 && ERA_DATA[6] == 25 && ERA_DATA[10] == 30 && ERA_DATA[14] == 8
    ensures ERA_DATA[18] == 7 && ERA_DATA[22] == 1 && ERA_DATA[26] == 1
  {
  }

  /** Every start date is a valid date, and the start dates strictly descend row by row. */
  lemma StartsDescend(k: int)
    requires 0 <= k < TOTAL_ERA_SIZE
    ensures Iso.IsValid(StartAt(k))
    ensures k + 1 < TOTAL_ERA_SIZE ==> OnOrBefore(StartAt(k + 1), StartAt(k)) && StartAt(k + 1) != StartAt(k)
  {
    StartRows();
    if k == 0 {
      assert Iso.MonthLength(1989, 1) == 31;
    } else if k == 1 {
      assert Iso.MonthLength(1926, 12) == 31;
    } else if k == 2 {
      assert Iso.MonthLength(1912, 7) == 31;
    } else if k == 3 {
      assert Iso.MonthLength(1868, 9) == 30;
    } else if k == 4 {
      assert Iso.MonthLength(1865, 4) == 30;
    } else if k == 5 {
      assert Iso.MonthLength(1, 1) == 31;
    } else {
      assert Iso.MonthLength(0, 1) == 31;
    }
  }

  //---------------------------------------------------------------------------
  // From (era, year of era) to the proleptic Gregorian year
  //---------------------------------------------------------------------------

  /** The first row at or after `k` whose code column holds `code`. */
  function RowOfCodeFrom(code: int, k: nat): (r: Option<nat>)
    requires k <= TOTAL_ERA_SIZE
    ensures r.Some? ==> k <= r.value < TOTAL_ERA_SIZE && CodeAt(r.value) == code
    ensures r.Some? ==> forall j :: k <= j < r.value ==> CodeAt(j) != code
    ensures r.None? ==> forall j :: k <= j < TOTAL_ERA_SIZE ==> CodeAt(j) != code
    decreases TOTAL_ERA_SIZE - k
  {
    if k == TOTAL_ERA_SIZE then None
    else if CodeAt(k) == code then Some(k)
    else RowOfCodeFrom(code, k + 1)
  }

  /**
   * The pair (era flag, year): era 0 passes through as (0, year); any other
   * code found in the table becomes (1, year + start year - 1); a code the
   * table lacks becomes (1, year).
   */
  function GregorianEraYear(era: int, year: int): (r: (int, int))
    ensures r.0 == (if era == 0 then 0 else 1)
  {
    if era == 0 then (0, year)
    else match RowOfCodeFrom(era, 0)
      case Some(k) => (1, year + ERA_DATA[ERA_ARRAY_SIZE * k + POSITION_YEAR] - 1)
      case None => (1, year)
  }

  /** Flag 0 mirrors the year (`1 - year`); flag 1 keeps it. */
  function ProlepticYearOfCode(era: int, year: int): int
  {
    var (flag, y) := GregorianEraYear(era, year);
    if flag == 0 then 1 - y else y
  }

  /**
   * Walks the table four ints at a time, deriving each row's code from a row
   * counter, and returns the era flag and the Gregorian year.
   */
  method GregorianEraYearFromLocalEraYear(era: int, year: int) returns (eraFlag: int, gregorianYear: int)
    ensures (eraFlag, gregorianYear) == GregorianEraYear(era, year)
  {
    if era == 0 {
      return 0, year;
    }
    TableShape();
    var offSet := 0;
    var eraCnt := 0;
    var y := year;
    var i := 0;
    while i < |ERA_DATA|
      invariant 0 <= eraCnt <= TOTAL_ERA_SIZE && i == ERA_ARRAY_SIZE * eraCnt
      invariant RowOfCodeFrom(era, 0) == RowOfCodeFrom(era, eraCnt)
      invariant y == year
    {
      var targetEra := TOTAL_ERA_SIZE - eraCnt - 1;
      if targetEra == era {
        offSet := ERA_DATA[i + POSITION_YEAR] - 1;
        y := y + offSet;
        return 1, y;
      }
      eraCnt := eraCnt + 1;
      i := i + ERA_ARRAY_SIZE;
    }
    return 1, y;
  }

  /** The leap test of the era calendar: map to the proleptic year first, then apply 4/100/400. */
  method IsLeapYear(era: int, year: int) returns (leap: bool)
    ensures leap == Iso.IsLeapYear(ProlepticYearOfCode(era, year))
  {
    var flag, y := GregorianEraYearFromLocalEraYear(era, year);
    if flag == 0 {
      y := 1 - y;
    }
    leap := y % 4 == 0 && (y % 100 != 0 || y % 400 == 0);
  }

  /** Every code of the table is found at row `TOTAL_ERA_SIZE - code - 1`; other codes are absent. */
  lemma RowOfCode(code: int)
    ensures 0 <= code < TOTAL_ERA_SIZE ==> RowOfCodeFrom(code, 0) == Some(TOTAL_ERA_SIZE - code - 1)
    ensures !(0 <= code < TOTAL_ERA_SIZE) ==> RowOfCodeFrom(code, 0) == None
  {
    TableShape();
  }

  /** The table row of an era: the most recent era, HEISEI, is row 0. */
  function RowOf(era: JapaneseEra): (k: int)
    ensures 0 <= k < TOTAL_ERA_SIZE
  {
    TableShape();
    match era
    case Heisei => 0
    case Showa => 1
    case Taisho => 2
    case Meiji => 3
    case Keio => 4
    case Ad => 5
    case Bc => 6
  }

  /** The row of an era is the row the scan finds for the era's code. */
  lemma RowOfMatchesScan(era: JapaneseEra)
    ensures RowOfCodeFrom(EraValue(era), 0) == Some(RowOf(era))
  {
    RowOfCode(EraValue(era));
  }

  /** The year before an era's first year, in proleptic Gregorian numbering. */
  function Offset(era: JapaneseEra): int
  {
    match era
    case Heisei => 1988
    case Showa => 1925
    case Taisho => 1911
    case Meiji => 1867
    case Keio => 1864
    case Ad => 0
    case Bc => -1
  }

  /** Each offset is the start year of the era's row, less one. */
  lemma OffsetMatchesTable(era: JapaneseEra)
    ensures Offset(era) == ERA_DATA[ERA_ARRAY_SIZE * RowOf(era) + POSITION_YEAR] - 1
  {
  }

  /** The proleptic Gregorian year of a year of an era: BC years mirror, other eras add their offset. */
  function ProlepticYear(era: JapaneseEra, yearOfEra: int): (p: int)
    ensures yearOfEra >= 1 ==> (p <= 0 <==> era == Bc)
  {
    if era == Bc then 1 - yearOfEra else yearOfEra + Offset(era)
  }

  /** The per-era mapping is the table scan of the era's code, followed by the BC mirror. */
  lemma ProlepticYearMatchesScan(era: JapaneseEra, yearOfEra: int)
    ensures ProlepticYear(era, yearOfEra) == ProlepticYearOfCode(EraValue(era), yearOfEra)
  {
    RowOfMatchesScan(era);
    OffsetMatchesTable(era);
  }

  /** The concrete offsets: HEISEI 1 is 1989, SHOWA 1 is 1926, and so on; AD years are Gregorian years. */
  lemma ProlepticYearOffsets(yearOfEra: int)
    ensures ProlepticYear(Heisei, yearOfEra) == yearOfEra + 1988
    ensures ProlepticYear(Showa, yearOfEra) == yearOfEra + 1925
    ensures ProlepticYear(Taisho, yearOfEra) == yearOfEra + 1911
    ensures ProlepticYear(Meiji, yearOfEra) == yearOfEra + 1867
    ensures ProlepticYear(Keio, yearOfEra) == yearOfEra + 1864
    ensures ProlepticYear(Ad, yearOfEra) == yearOfEra
    ensures ProlepticYear(Bc, yearOfEra) == 1 - yearOfEra
  {
  }

  /** The year of `era` that is proleptic year `p`; it inverts ProlepticYear. */
  function YearOfEraOf(era: JapaneseEra, p: int): (y: int)
    ensures ProlepticYear(era, y) == p
  {
    if era == Bc then 1 - p else p - Offset(era)
  }

  /** Within one era, distinct years of era are distinct proleptic years. */
  lemma ProlepticYearInjective(era: JapaneseEra, y1: int, y2: int)
    requires ProlepticYear(era, y1) == ProlepticYear(era, y2)
    ensures y1 == y2
  {
  }

  /** An unknown era code falls through the scan unchanged. */
  lemma AbsentCodeFallsThrough(era: int, year: int)
    requires !(0 <= era < TOTAL_ERA_SIZE)
    ensures GregorianEraYear(era, year) == (1, year)
  {
    RowOfCode(era);
  }

  /** The leap rule applies to the mapped year: SHOWA 3 (1928) is leap although 3 is not; HEISEI 21 (2009) is not. */
  lemma LeapYearFollowsMapping()
    ensures Iso.IsLeapYear(ProlepticYear(Showa, 3)) && !Iso.IsLeapYear(3)
    ensures ProlepticYear(Heisei, 21) == 2009 && !Iso.IsLeapYear(ProlepticYear(Heisei, 21))
  {
    ProlepticYearOffsets(3);
    ProlepticYearOffsets(21);
  }

  //---------------------------------------------------------------------------
  // From a Gregorian date to the era in force
  //---------------------------------------------------------------------------

  /** The first row at or after `k` whose era had started by `date`: the table scan. */
  function RowOfDateFrom(date: Iso.LocalDate, k: nat): (r: Option<nat>)
    requires k <= TOTAL_ERA_SIZE
    ensures r.Some? ==> k <= r.value < TOTAL_ERA_SIZE && OnOrBefore(StartAt(r.value), date)
    ensures r.Some? ==> forall j :: k <= j < r.value ==> !OnOrBefore(StartAt(j), date)
    ensures r.None? ==> forall j :: k <= j < TOTAL_ERA_SIZE ==> !OnOrBefore(StartAt(j), date)
    decreases TOTAL_ERA_SIZE - k
  {
    if k == TOTAL_ERA_SIZE then None
    else if OnOrBefore(StartAt(k), date) then Some(k)
    else RowOfDateFrom(date, k + 1)
  }

  /** The first day of each era, as its table row lists it. */
  function EraStart(era: JapaneseEra): Iso.LocalDate
  {
    match era
    case Heisei => Iso.LocalDate(1989, 1, 8)
    case Showa => Iso.LocalDate(1926, 12, 25)
    case Taisho => Iso.LocalDate(1912, 7, 30)
    case Meiji => Iso.LocalDate(1868, 9, 8)
    case Keio => Iso.LocalDate(1865, 4, 7)
    case Ad => Iso.LocalDate(1, 1, 1)
    case Bc => Iso.LocalDate(0, 1, 1)
  }

  /** Each era's start is the start date of its table row. */
  lemma EraStartMatchesTable(era: JapaneseEra)
    ensures EraStart(era) == StartAt(RowOf(era))
  {
    StartRows();
  }

  /** The era in force on `date`: the most recent era that has started by then, else BC. */
  function EraOfDate(date: Iso.LocalDate): JapaneseEra
  {
    if OnOrBefore(EraStart(Heisei), date) then Heisei
    else if OnOrBefore(EraStart(Showa), date) then Showa
    else if OnOrBefore(EraStart(Taisho), date) then Taisho
    else if OnOrBefore(EraStart(Meiji), date) then Meiji
    else if OnOrBefore(EraStart(Keio), date) then Keio
    else if OnOrBefore(EraStart(Ad), date) then Ad
    else Bc
  }

  /**
   * The era of a date is the era whose code sits in the first table row that
   * starts on or before the date; with no such row, era 0.
   */
  lemma EraOfDateMatchesTable(date: Iso.LocalDate)
    ensures EraOfDate(date) == match RowOfDateFrom(date, 0)
      case Some(k) => EraOfValue(TOTAL_ERA_SIZE - k - 1)
      case None => Bc
  {
    StartRows();
  }

  /**
   * The era of a date is the latest era that has started by then: its start
   * is on or before the date (for every era but BC), and every later era
   * starts after the date.
   */
  lemma EraOfDateIsLatestStarted(date: Iso.LocalDate, later: JapaneseEra)
    ensures EraOfDate(date) != Bc ==> OnOrBefore(EraStart(EraOfDate(date)), date)
    ensures EraValue(later) > EraValue(EraOfDate(date)) ==> !OnOrBefore(EraStart(later), date)
  {
  }

  /** The year of era of a date in its own era is at least 1. */
  lemma YearOfEraOfDatePositive(date: Iso.LocalDate)
    requires Iso.IsValid(date)
    ensures YearOfEraOf(EraOfDate(date), date.year) >= 1
  {
  }

  /** Dates before year 1 are in era BC; dates from year 1 on are in an era that started by year 1989. */
  lemma EraOfDateBounds(date: Iso.LocalDate)
    requires Iso.IsValid(date)
    ensures date.year <= 0 ==> EraOfDate(date) == Bc
    ensures date.year >= 1 ==> EraOfDate(date) != Bc && 0 <= Offset(EraOfDate(date)) <= 1988
  {
  }
}
