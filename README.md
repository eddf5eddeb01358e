# Hijrah and Japanese calendar dates, and the ISO week of week-based year

This project is a verified Dafny model of three pieces of date logic from a
JSR-310 style date-time library.

- **The tabular Hijrah calendar.** A date is an era (HIJRAH or BEFORE_HIJRAH),
  a year of era from 1 to 9999, a month and a day. Leap years follow the
  30-year cycle `(14 + 11 * |year|) mod 30 < 11`. Odd months have 30 days and
  even months 29. Month 12 gains a day in a leap year. Hijrah day 1 of year 1
  is 0622-07-19 of the proleptic Gregorian calendar.
- **The Japanese imperial-era calendar.** A date is an era, a year of era, a
  month and a day. The era table `ERA_DATA` lists the eras most recent first,
  one row of (start year, start month, start day, era code) each. The table
  maps (era, year of era) to a proleptic Gregorian year. Era 0 counts
  backwards as `1 - year`. Month lengths and leap years are then those of
  the Gregorian calendar for the mapped year. The table walk is an imperative
  loop, and it is proved equal to a specification function.
- **`WeekOfWeekyear`.** A week number from 1 to 53, with `compareTo`,
  `equals`, `hashCode`, `isValid` and `toString`. The factory hands out one
  shared instance per number from a 53-slot cache array. Each slot is
  written only while it is empty.

Both calendars place dates on one canonical day axis: the number of days
since 0001-01-01 of the proleptic Gregorian calendar. A day-of-week and an
ISO `LocalDate` view are shared through that axis, and so are day and week
arithmetic and the ordering of dates.

How the calendars behave:

- Factories and field replacements check the year of era, then the month,
  then the day. Each failure names the first field that fails.
- Year and month arithmetic stays in the date's era and re-validates the
  result. It never clamps the day: a day that no longer exists fails naming
  the day-of-month field.
- Day and week arithmetic moves along the day axis. A result beyond year of
  era 9999 fails naming the year-of-era field.
- A Japanese date reached by day arithmetic is in the era in force on that
  day.

Modules:

| file | module | contents |
|---|---|---|
| `fields.dfy` | `CalendarFields` | field rules, the two failure kinds, `Result` |
| `decimal_text.dfy` | `DecimalText` | decimal and two-digit rendering, with parsers that invert them |
| `iso_calendar.dfy` | `IsoCalendar` | the proleptic Gregorian calendar on the day axis |
| `hijrah.dfy` | `HijrahCalendar` | Hijrah dates |
| `japanese_era.dfy` | `JapaneseEras` | the era table, its scan and the era of a date |
| `japanese.dfy` | `JapaneseCalendar` | Japanese dates |
| `week_of_weekyear.dfy` | `WeekOfWeekyearField` | the week value class and its cache class |

Where the library's own description and its tests disagree, the model
follows the tests:

- Day and week arithmetic past the supported range is described as a
  generic overflow failure. The tests expect a failure naming the
  year-of-era field, so the model does that.
- Year arithmetic is modelled relative to the era, not the proleptic year.
  The tests require `minusYears(9999)` from HIJRAH 1430 to fail, and with
  proleptic arithmetic it would give the valid date BEFORE_HIJRAH 8570.

## Model

| member | source | states |
|---|---|---|
| HijrahCalendar.LeapYearsOfCycle | src-oracle/test/java/javax/time/i18n/TestHijrahDate.java:659-661 | the leap rule makes exactly years 2, 5, 7, 10, 13, 16, 18, 21, 24, 26 and 29 of a cycle leap |
| HijrahCalendar.LeapYearSymmetric | src-oracle/test/java/javax/time/i18n/TestHijrahDate.java:659-661 | the absolute value makes a year and its negation equally leap |
| HijrahCalendar.LeapYearPeriodic | src-oracle/test/java/javax/time/i18n/TestHijrahDate.java:659-661 | from year 0 on, the rule repeats every 30 years |
| HijrahCalendar.CycleHasElevenLeapYears | src-oracle/test/java/javax/time/i18n/TestHijrahDate.java:659-661 | every aligned 30-year cycle has 30 * 354 + 11 days, summed year by year |
| HijrahCalendar.MonthLength | src-oracle/test/java/javax/time/i18n/TestHijrahDate.java:38 | every Hijrah month has 29 or 30 days |
| HijrahCalendar.LeapYearByPosition | src-oracle/test/java/javax/time/i18n/TestHijrahDate.java:659-661 | for every year of either sign, the leap rule holds exactly when |year| mod 30 is one of the eleven positions 2, 5, 7, 10, 13, 16, 18, 21, 24, 26, 29 |
| HijrahCalendar.GetDayOfYear | src-oracle/test/java/javax/time/i18n/TestHijrahDate.java:179-182 | the day of year runs from 1 to the length of the date's year |
| HijrahCalendar.GetDayOfWeek | src-oracle/test/java/javax/time/i18n/TestHijrahDate.java:187-197 | the day of week is 1 (Monday) to 7 (Sunday); DayOfWeekMatchesLocalDate ties it to the ISO date |
| HijrahCalendar.FromEpochDay | src-oracle/test/java/javax/time/i18n/TestHijrahDate.java:495-496 | the date found at a position of the day axis is a calendar date at exactly that position |
| HijrahCalendar.EpochDayInjective | src-oracle/test/java/javax/time/i18n/TestHijrahDate.java:513-548 | distinct dates sit at distinct positions of the day axis |
| HijrahCalendar.EpochDayMonotone | src-oracle/test/java/javax/time/i18n/TestHijrahDate.java:513-548 | a date written earlier (year, then month, then day) lies earlier on the day axis |
| HijrahCalendar.FromEpochDayRoundTrip | src-oracle/test/java/javax/time/i18n/TestHijrahDate.java:495-496 | going to the day axis and back returns the date |
| HijrahCalendar.Of | src-oracle/test/java/javax/time/i18n/TestHijrahDate.java:104-132 | succeeds exactly for valid fields and returns them; otherwise fails naming year of era, then month, then day of month, with the bounds |
| HijrahCalendar.OfHijrahEra | src-oracle/test/java/javax/time/i18n/TestHijrahDate.java:92-101 | the three-field factory builds a date of the HIJRAH era |
| HijrahCalendar.WithYearOfEra | src-oracle/test/java/javax/time/i18n/TestHijrahDate.java:213-236 | succeeds exactly when the date with the new year of era is valid, and then changes only the year of era; a year of era outside 1..9999 fails naming it with its bounds; any other failure names the day of month |
| HijrahCalendar.WithYear | src-oracle/test/java/javax/time/i18n/TestHijrahDate.java:242-265 | succeeds exactly when the date with the new era and year of era is valid, and then changes only those two; a year of era outside 1..9999 fails naming it; any other failure names the day of month |
| HijrahCalendar.WithMonthOfYear | src-oracle/test/java/javax/time/i18n/TestHijrahDate.java:271-294 | succeeds exactly when the date with the new month is valid, and then changes only the month; a month outside 1..12 fails naming it with bounds 1 and 12; any other failure names the day of month |
| HijrahCalendar.WithDayOfMonth | src-oracle/test/java/javax/time/i18n/TestHijrahDate.java:300-323 | succeeds exactly for a day within the month's length and changes only the day; otherwise fails naming the day of month |
| HijrahCalendar.WithDayOfYear | src-oracle/test/java/javax/time/i18n/TestHijrahDate.java:329-352 | succeeds exactly for 1..year length, giving a valid date of the same era and year with that day of year; otherwise fails naming the day of year with bounds 1 and the year length |
| HijrahCalendar.PlusYears | src-oracle/test/java/javax/time/i18n/TestHijrahDate.java:359-367 | succeeds exactly when the date with year of era + years is valid, and then is that date; a year of era outside 1..9999 fails naming it with its value and bounds; a day that no longer exists fails naming the day of month, without clamping |
| HijrahCalendar.MinusYears | src-oracle/test/java/javax/time/i18n/TestHijrahDate.java:426-434 | succeeds exactly when the date with year of era - years is valid, and then is that date; a year of era outside 1..9999 fails naming it; a day that no longer exists fails naming the day of month |
| HijrahCalendar.PlusMonths | src-oracle/test/java/javax/time/i18n/TestHijrahDate.java:372-384 | succeeds exactly when the month-shifted date (ShiftMonths) is valid, and then is that date, same era and day; a carried year of era outside 1..9999 fails naming it with its value; a day that no longer exists fails naming the day of month |
| HijrahCalendar.MinusMonths | src-oracle/test/java/javax/time/i18n/TestHijrahDate.java:439-451 | the same as PlusMonths with the months negated: validity, era and day kept, the yearOfEra failure on a carried year out of range, and a day failure otherwise |
| HijrahCalendar.ShiftMonths | src-oracle/test/java/javax/time/i18n/TestHijrahDate.java:372-384 | the shifted fields keep era and day, have a month in 1..12, and year of era * 12 + month moves by exactly the months added |
| HijrahCalendar.PlusYearsThenMinusYears | src-oracle/test/java/javax/time/i18n/TestHijrahDate.java:359-367 | whenever adding years succeeds, subtracting as many gives back the date |
| HijrahCalendar.PlusMonthsThenMinusMonths | src-oracle/test/java/javax/time/i18n/TestHijrahDate.java:372-384 | whenever adding months succeeds, subtracting as many gives back the date |
| HijrahCalendar.ShiftedDayMustExist | src-oracle/test/java/javax/time/i18n/TestHijrahDate.java:359-384 | HIJRAH 1431-12-30 plus one year, and 1430-01-30 plus one month, fail naming the day of month with bounds 1..29 |
| HijrahCalendar.WithYearOfEraRestores | src-oracle/test/java/javax/time/i18n/TestHijrahDate.java:213-236 | a successful year-of-era replacement is undone by replacing the old year of era |
| HijrahCalendar.WithYearRestores | src-oracle/test/java/javax/time/i18n/TestHijrahDate.java:242-265 | a successful era and year replacement is undone by replacing the old ones |
| HijrahCalendar.WithMonthOfYearRestores | src-oracle/test/java/javax/time/i18n/TestHijrahDate.java:271-294 | a successful month replacement is undone by replacing the old month |
| HijrahCalendar.PlusDays | src-oracle/test/java/javax/time/i18n/TestHijrahDate.java:390-402 | success is a valid date exactly `days` further on the day axis; failure names the year of era and happens only when the day reached is beyond year of era 9999 |
| HijrahCalendar.MinusDays | src-oracle/test/java/javax/time/i18n/TestHijrahDate.java:457-469 | success is a valid date exactly `days` back on the day axis; failure names the year of era |
| HijrahCalendar.PlusWeeks | src-oracle/test/java/javax/time/i18n/TestHijrahDate.java:408-420 | success is a valid date 7 days per week further on; failure names the year of era |
| HijrahCalendar.MinusWeeks | src-oracle/test/java/javax/time/i18n/TestHijrahDate.java:475-487 | success is a valid date 7 days per week back; failure names the year of era |
| HijrahCalendar.PlusDaysLandsOn | src-oracle/test/java/javax/time/i18n/TestHijrahDate.java:390-393 | adding days returns exactly the valid date at that distance on the day axis |
| HijrahCalendar.MinusDaysLandsOn | src-oracle/test/java/javax/time/i18n/TestHijrahDate.java:457-460 | subtracting days returns exactly the valid date that far back |
| HijrahCalendar.PlusWeeksLandsOn | src-oracle/test/java/javax/time/i18n/TestHijrahDate.java:408-411 | adding weeks returns exactly the valid date 7 days per week further on |
| HijrahCalendar.MinusWeeksLandsOn | src-oracle/test/java/javax/time/i18n/TestHijrahDate.java:475-478 | subtracting weeks returns exactly the valid date 7 days per week back |
| HijrahCalendar.PlusDaysWithinMonth | src-oracle/test/java/javax/time/i18n/TestHijrahDate.java:390-393 | within one month, adding days changes only the day of month |
| HijrahCalendar.PlusDaysThenMinusDays | src-oracle/test/java/javax/time/i18n/TestHijrahDate.java:390-393 | subtracting the days just added gives the original date back |
| HijrahCalendar.EpochDayBounds | src-oracle/test/java/javax/time/i18n/TestHijrahDate.java:398-401 | every valid date lies between the start of proleptic year -9998 and the end of year 9999 |
| HijrahCalendar.PlusDaysOverflow | src-oracle/test/java/javax/time/i18n/TestHijrahDate.java:398-401 | adding Integer.MAX_VALUE days or more to any valid date fails naming the year of era |
| HijrahCalendar.MinusDaysOverflow | src-oracle/test/java/javax/time/i18n/TestHijrahDate.java:465-468 | subtracting Integer.MAX_VALUE days or more from any valid date fails naming the year of era |
| HijrahCalendar.PlusWeeksOverflow | src-oracle/test/java/javax/time/i18n/TestHijrahDate.java:416-419 | adding Integer.MAX_VALUE weeks or more fails naming the year of era |
| HijrahCalendar.MinusWeeksOverflow | src-oracle/test/java/javax/time/i18n/TestHijrahDate.java:483-486 | subtracting Integer.MAX_VALUE weeks or more fails naming the year of era |
| HijrahCalendar.Get | src-oracle/test/java/javax/time/i18n/TestHijrahDate.java:139-152 | the era, year of era, month, day of month, day of year (within 1..year length) and day of week (1..7) rules of the chronology return exactly the getters' values; any other rule, such as HourOfDay or another chronology's rule, fails as unsupported naming that rule |
| HijrahCalendar.CompareTo | src-oracle/test/java/javax/time/i18n/TestHijrahDate.java:529-548 | the result is -1, 0 or 1, and 0 exactly for equal dates |
| HijrahCalendar.IsBefore | src-oracle/test/java/javax/time/i18n/TestHijrahDate.java:529-548 | holds exactly when compareTo is negative |
| HijrahCalendar.IsAfter | src-oracle/test/java/javax/time/i18n/TestHijrahDate.java:529-548 | holds exactly when compareTo is positive |
| HijrahCalendar.CompareToAntisymmetric | src-oracle/test/java/javax/time/i18n/TestHijrahDate.java:529-548 | swapping the operands negates compareTo |
| HijrahCalendar.CompareToTransitive | src-oracle/test/java/javax/time/i18n/TestHijrahDate.java:529-548 | compareTo orders transitively |
| HijrahCalendar.AscendingByFields | src-oracle/test/java/javax/time/i18n/TestHijrahDate.java:513-526 | a list of valid dates in written order is strictly ascending on the day axis |
| HijrahCalendar.AscendingIsStrict | src-oracle/test/java/javax/time/i18n/TestHijrahDate.java:529-548 | in an ascending list, an earlier position means an earlier day |
| HijrahCalendar.ComparisonsFollowPositions | src-oracle/test/java/javax/time/i18n/TestHijrahDate.java:529-548 | in an ascending list, compareTo, isBefore, isAfter and equality all agree with the positions |
| HijrahCalendar.OrderedDatesAscending | src-oracle/test/java/javax/time/i18n/TestHijrahDate.java:513-526 | the tests' twelve dates are in ascending order |
| HijrahCalendar.ToString | src-oracle/test/java/javax/time/i18n/TestHijrahDate.java:644-648 | the text form reads back as the year of era, month and day |
| HijrahCalendar.TestToString | src-oracle/test/java/javax/time/i18n/TestHijrahDate.java:644-648 | 1430-03-05 prints as `1430-03-05 (Hijrah)` |
| HijrahCalendar.ToLocalDate | src-oracle/test/java/javax/time/i18n/TestHijrahDate.java:493-497 | the ISO date of a Hijrah date is valid and sits at the same position of the day axis |
| HijrahCalendar.FromLocalDate | src-oracle/test/java/javax/time/i18n/TestHijrahDate.java:81-85 | the Hijrah date of an ISO date sits at the same position; beyond year of era 9999 it fails naming the year of era |
| HijrahCalendar.ToLocalDateOfSameDay | src-oracle/test/java/javax/time/i18n/TestHijrahDate.java:493-497 | the ISO date of a Hijrah date is the unique valid ISO date at its position |
| HijrahCalendar.LocalDateRoundTrip | src-oracle/test/java/javax/time/i18n/TestHijrahDate.java:81-85 | converting to ISO and back returns the date |
| HijrahCalendar.DayOfWeekMatchesLocalDate | src-oracle/test/java/javax/time/i18n/TestHijrahDate.java:200-203 | the day of week equals that of the ISO date of the same day |
| HijrahCalendar.DayOfWeekOfNextDay | src-oracle/test/java/javax/time/i18n/TestHijrahDate.java:187-197 | the next day's day of week is one more, wrapping from 7 to 1 |
| HijrahCalendar.EpochAnchor | src-oracle/test/java/javax/time/i18n/TestHijrahDate.java:493-497 | Hijrah day 1 of year 1 is the Gregorian date 0622-07-19 |
| HijrahCalendar.TestDateFields | src-oracle/test/java/javax/time/i18n/TestHijrahDate.java:31-44 | 1430 is not leap, months 1 and 2 have 30 and 29 days, so 1430-03-05 is day 64 |
| HijrahCalendar.TestDateIsLocalDate | src-oracle/test/java/javax/time/i18n/TestHijrahDate.java:493-497 | 1430-03-05 is the ISO date 2009-03-02 |
| HijrahCalendar.TestWeekDays | src-oracle/test/java/javax/time/i18n/TestHijrahDate.java:187-197 | 1430-03-05 to 1430-03-12 fall on days 1 to 7 and then 1 again |
| HijrahCalendar.TestValidationFailures | src-oracle/test/java/javax/time/i18n/TestHijrahDate.java:104-352 | each invalid factory and replacement of the tests fails naming its field |
| HijrahCalendar.TestReplacements | src-oracle/test/java/javax/time/i18n/TestHijrahDate.java:213-333 | the successful replacements of the tests, including day of year 15 as 01-15 |
| HijrahCalendar.TestYearMonthArithmetic | src-oracle/test/java/javax/time/i18n/TestHijrahDate.java:359-442 | plusYears(10), minusYears(10), plusMonths(5) and minusMonths(1) give the tests' dates |
| HijrahCalendar.TestMinusWeeks | src-oracle/test/java/javax/time/i18n/TestHijrahDate.java:475-478 | minusWeeks(2) from 1430-03-05 gives 1430-02-20 |
| HijrahCalendar.TestArithmeticFailures | src-oracle/test/java/javax/time/i18n/TestHijrahDate.java:364-450 | plusYears(9999), minusYears(9999) and plus/minusMonths(Integer.MAX_VALUE) fail naming the year of era |
| IsoCalendar.FromEpochDay | src-oracle/test/java/javax/time/i18n/TestJapaneseDate.java:493-494 | the ISO date at a position of the day axis is valid and sits at exactly that position |
| IsoCalendar.FromEpochDayRoundTrip | src-oracle/test/java/javax/time/i18n/TestJapaneseDate.java:493-494 | a valid ISO date survives the trip to the day axis and back |
| IsoCalendar.DayOfWeekNext | src-oracle/test/java/javax/time/i18n/TestJapaneseDate.java:185-194 | the day of week of the next day is one more, wrapping from 7 to 1 |
| JapaneseEras.TableShape | src-oracle/test/java/javax/time/i18n/TestJapaneseDate.java:697-710 | the table has 7 rows of 4, and row k stores code `TOTAL_ERA_SIZE - k - 1` |
| JapaneseEras.StartsDescend | src-oracle/test/java/javax/time/i18n/TestJapaneseDate.java:697-706 | every start date is valid, and the start dates strictly descend row by row |
| JapaneseEras.RowOfCodeFrom | src-oracle/test/java/javax/time/i18n/TestJapaneseDate.java:680-690 | the scan finds the first row storing the code, or reports that no later row stores it |
| JapaneseEras.GregorianEraYear | src-oracle/test/java/javax/time/i18n/TestJapaneseDate.java:668-694 | era 0 passes through with flag 0; every other code gets flag 1 |
| JapaneseEras.GregorianEraYearFromLocalEraYear | src-oracle/test/java/javax/time/i18n/TestJapaneseDate.java:668-694 | the loop over the table returns exactly the specified (flag, year) |
| JapaneseEras.IsLeapYear | src-oracle/test/java/javax/time/i18n/TestJapaneseDate.java:657-666 | the 4/100/400 rule applied to the year mapped through the table, mirrored for era 0 |
| JapaneseEras.RowOfCode | src-oracle/test/java/javax/time/i18n/TestJapaneseDate.java:680-690 | every code 0..6 is found at row `6 - code`; any other code is absent |
| JapaneseEras.RowOfMatchesScan | src-oracle/test/java/javax/time/i18n/TestJapaneseDate.java:680-690 | each era's row is the row the scan finds for its code |
| JapaneseEras.OffsetMatchesTable | src-oracle/test/java/javax/time/i18n/TestJapaneseDate.java:683-685 | each era's offset is its row's start year minus 1 |
| JapaneseEras.ProlepticYearMatchesScan | src-oracle/test/java/javax/time/i18n/TestJapaneseDate.java:657-694 | the per-era mapping equals the table scan followed by the era-0 mirror |
| JapaneseEras.ProlepticYear | src-oracle/test/java/javax/time/i18n/TestJapaneseDate.java:668-694 | for a positive year of era, the proleptic year is 0 or less exactly in era BC (code 0), the mirrored era |
| JapaneseEras.ProlepticYearOffsets | src-oracle/test/java/javax/time/i18n/TestJapaneseDate.java:697-706 | HEISEI 1 is 1989, SHOWA 1 is 1926, TAISHO 1 is 1912, MEIJI 1 is 1868, KEIO 1 is 1865; AD keeps the year; BC mirrors it |
| JapaneseEras.YearOfEraOf | src-oracle/test/java/javax/time/i18n/TestJapaneseDate.java:668-694 | inverts the mapping from year of era to proleptic year |
| JapaneseEras.ProlepticYearInjective | src-oracle/test/java/javax/time/i18n/TestJapaneseDate.java:668-694 | within one era, distinct years of era map to distinct proleptic years |
| JapaneseEras.AbsentCodeFallsThrough | src-oracle/test/java/javax/time/i18n/TestJapaneseDate.java:692-694 | a code absent from the table gives (1, year) |
| JapaneseEras.LeapYearFollowsMapping | src-oracle/test/java/javax/time/i18n/TestJapaneseDate.java:657-666 | leapness follows the mapped year: SHOWA 3 (1928) is leap though 3 is not; HEISEI 21 (2009) is not |
| JapaneseEras.RowOfDateFrom | src-oracle/test/java/javax/time/i18n/TestJapaneseDate.java:697-706 | finds the first row whose era had started by a date, or reports that none had |
| JapaneseEras.EraStartMatchesTable | src-oracle/test/java/javax/time/i18n/TestJapaneseDate.java:697-706 | each era's first day is its row's start date |
| JapaneseEras.EraOfDateMatchesTable | src-oracle/test/java/javax/time/i18n/TestJapaneseDate.java:697-710 | the era of a date is the era coded by the first row that started by then, else era 0 |
| JapaneseEras.EraOfDateIsLatestStarted | src-oracle/test/java/javax/time/i18n/TestJapaneseDate.java:697-706 | the era of a date has started by then, and every later era has not |
| JapaneseEras.EraOfDateBounds | src-oracle/test/java/javax/time/i18n/TestJapaneseDate.java:697-706 | dates before year 1 are in era BC; later dates are in an era with offset 0 to 1988 |
| JapaneseEras.EraNameRoundTrip | src-oracle/test/java/javax/time/i18n/TestJapaneseDate.java:644-646 | each era name reads back to its era and contains no space |
| JapaneseCalendar.DateIsLeapYearMatchesTable | src-oracle/test/java/javax/time/i18n/TestJapaneseDate.java:204-206 | a date's leap flag is the table-based leap test of its era code and year of era |
| JapaneseCalendar.GetDayOfYear | src-oracle/test/java/javax/time/i18n/TestJapaneseDate.java:177-180 | the day of year runs from 1 to the length of the mapped Gregorian year |
| JapaneseCalendar.GetDayOfWeek | src-oracle/test/java/javax/time/i18n/TestJapaneseDate.java:185-195 | the day of week is 1 (Monday) to 7 (Sunday); DayOfWeekMatchesLocalDate ties it to the ISO date |
| JapaneseCalendar.FromEpochDay | src-oracle/test/java/javax/time/i18n/TestJapaneseDate.java:493-494 | the date at a position of the day axis is in the era in force on that day, at exactly that position |
| JapaneseCalendar.EpochDayInjective | src-oracle/test/java/javax/time/i18n/TestJapaneseDate.java:527-548 | two dates of one era at one position of the day axis are equal |
| JapaneseCalendar.FromEpochDayRoundTrip | src-oracle/test/java/javax/time/i18n/TestJapaneseDate.java:493-494 | a date in the era of its own day survives the trip to the day axis and back |
| JapaneseCalendar.CanonicalInjective | src-oracle/test/java/javax/time/i18n/TestJapaneseDate.java:527-548 | two dates, each in the era of its own day, at one position are equal |
| JapaneseCalendar.Of | src-oracle/test/java/javax/time/i18n/TestJapaneseDate.java:102-130 | succeeds exactly for valid fields and returns them; otherwise fails naming year of era, then month, then day of month, with the bounds |
| JapaneseCalendar.OfDefaultEra | src-oracle/test/java/javax/time/i18n/TestJapaneseDate.java:90-99 | the three-field factory builds a date of the era HEISEI |
| JapaneseCalendar.WithYearOfEra | src-oracle/test/java/javax/time/i18n/TestJapaneseDate.java:211-234 | succeeds exactly when the date with the new year of era is valid, and then changes only the year of era; a year of era outside 1..9999 fails naming it with its bounds; any other failure names the day of month |
| JapaneseCalendar.WithYear | src-oracle/test/java/javax/time/i18n/TestJapaneseDate.java:240-264 | succeeds exactly when the date with the new era and year of era is valid, and then changes only those two; a year of era outside 1..9999 fails naming it; any other failure names the day of month |
| JapaneseCalendar.WithMonthOfYear | src-oracle/test/java/javax/time/i18n/TestJapaneseDate.java:270-293 | succeeds exactly when the date with the new month is valid, and then changes only the month; a month outside 1..12 fails naming it with bounds 1 and 12; any other failure names the day of month |
| JapaneseCalendar.WithDayOfMonth | src-oracle/test/java/javax/time/i18n/TestJapaneseDate.java:299-322 | succeeds exactly for a day within the Gregorian month's length and changes only the day; otherwise fails naming the day of month |
| JapaneseCalendar.WithDayOfYear | src-oracle/test/java/javax/time/i18n/TestJapaneseDate.java:328-351 | succeeds exactly for 1..year length, giving a valid date of the same era and year with that day of year; otherwise fails naming the day of year |
| JapaneseCalendar.PlusYears | src-oracle/test/java/javax/time/i18n/TestJapaneseDate.java:357-365 | succeeds exactly when the date with year of era + years is valid, and then is that date; a year of era outside 1..9999 fails naming it with its value and bounds; a day that no longer exists fails naming the day of month, without clamping |
| JapaneseCalendar.MinusYears | src-oracle/test/java/javax/time/i18n/TestJapaneseDate.java:424-432 | succeeds exactly when the date with year of era - years is valid, and then is that date; a year of era outside 1..9999 fails naming it; a day that no longer exists fails naming the day of month |
| JapaneseCalendar.PlusMonths | src-oracle/test/java/javax/time/i18n/TestJapaneseDate.java:370-382 | succeeds exactly when the month-shifted date (ShiftMonths) is valid, and then is that date, same era and day; a carried year of era outside 1..9999 fails naming it with its value; a day that no longer exists fails naming the day of month |
| JapaneseCalendar.MinusMonths | src-oracle/test/java/javax/time/i18n/TestJapaneseDate.java:437-449 | the same as PlusMonths with the months negated: validity, era and day kept, the yearOfEra failure on a carried year out of range, and a day failure otherwise |
| JapaneseCalendar.ShiftMonths | src-oracle/test/java/javax/time/i18n/TestJapaneseDate.java:370-382 | the shifted fields keep era and day, have a month in 1..12, and year of era * 12 + month moves by exactly the months added |
| JapaneseCalendar.PlusYearsThenMinusYears | src-oracle/test/java/javax/time/i18n/TestJapaneseDate.java:357-365 | whenever adding years succeeds, subtracting as many gives back the date |
| JapaneseCalendar.PlusMonthsThenMinusMonths | src-oracle/test/java/javax/time/i18n/TestJapaneseDate.java:370-382 | whenever adding months succeeds, subtracting as many gives back the date |
| JapaneseCalendar.ShiftedDayMustExist | src-oracle/test/java/javax/time/i18n/TestJapaneseDate.java:357-382 | HEISEI 20-02-29 plus one year, and 21-01-31 plus one month, fail naming the day of month with bounds 1..28 |
| JapaneseCalendar.WithYearOfEraRestores | src-oracle/test/java/javax/time/i18n/TestJapaneseDate.java:211-234 | a successful year-of-era replacement is undone by replacing the old year of era |
| JapaneseCalendar.WithYearRestores | src-oracle/test/java/javax/time/i18n/TestJapaneseDate.java:240-264 | a successful era and year replacement is undone by replacing the old ones |
| JapaneseCalendar.WithMonthOfYearRestores | src-oracle/test/java/javax/time/i18n/TestJapaneseDate.java:270-293 | a successful month replacement is undone by replacing the old month |
| JapaneseCalendar.PlusDays | src-oracle/test/java/javax/time/i18n/TestJapaneseDate.java:388-400 | success is a valid date, in the era of its day, exactly `days` further on; failure names the year of era and happens only beyond year of era 9999 |
| JapaneseCalendar.MinusDays | src-oracle/test/java/javax/time/i18n/TestJapaneseDate.java:455-467 | success is a valid date, in the era of its day, exactly `days` back; failure names the year of era |
| JapaneseCalendar.PlusWeeks | src-oracle/test/java/javax/time/i18n/TestJapaneseDate.java:406-418 | success is a valid date 7 days per week further on; failure names the year of era |
| JapaneseCalendar.MinusWeeks | src-oracle/test/java/javax/time/i18n/TestJapaneseDate.java:473-485 | success is a valid date 7 days per week back; failure names the year of era |
| JapaneseCalendar.PlusDaysLandsOn | src-oracle/test/java/javax/time/i18n/TestJapaneseDate.java:388-391 | adding days returns exactly the date, in the era of its day, at that distance |
| JapaneseCalendar.MinusDaysLandsOn | src-oracle/test/java/javax/time/i18n/TestJapaneseDate.java:455-458 | subtracting days returns exactly the date, in the era of its day, that far back |
| JapaneseCalendar.PlusWeeksLandsOn | src-oracle/test/java/javax/time/i18n/TestJapaneseDate.java:406-409 | adding weeks returns exactly the date 7 days per week further on |
| JapaneseCalendar.MinusWeeksLandsOn | src-oracle/test/java/javax/time/i18n/TestJapaneseDate.java:473-476 | subtracting weeks returns exactly the date 7 days per week back |
| JapaneseCalendar.PlusDaysThenMinusDays | src-oracle/test/java/javax/time/i18n/TestJapaneseDate.java:388-391 | subtracting the days just added restores a date in the era of its own day |
| JapaneseCalendar.EpochDayBounds | src-oracle/test/java/javax/time/i18n/TestJapaneseDate.java:394-399 | every valid date lies between the start of proleptic year -9998 and the end of year 11987 |
| JapaneseCalendar.PlusDaysOverflow | src-oracle/test/java/javax/time/i18n/TestJapaneseDate.java:394-399 | adding Integer.MAX_VALUE days or more fails naming the year of era |
| JapaneseCalendar.PlusDaysUnderflow | src-oracle/test/java/javax/time/i18n/TestJapaneseDate.java:461-466 | adding -Integer.MAX_VALUE days or fewer fails naming the year of era |
| JapaneseCalendar.MinusDaysOverflow | src-oracle/test/java/javax/time/i18n/TestJapaneseDate.java:461-466 | subtracting Integer.MAX_VALUE days or more fails naming the year of era |
| JapaneseCalendar.PlusWeeksOverflow | src-oracle/test/java/javax/time/i18n/TestJapaneseDate.java:412-417 | adding Integer.MAX_VALUE weeks or more fails naming the year of era |
| JapaneseCalendar.MinusWeeksOverflow | src-oracle/test/java/javax/time/i18n/TestJapaneseDate.java:479-484 | subtracting Integer.MAX_VALUE weeks or more fails naming the year of era |
| JapaneseCalendar.Get | src-oracle/test/java/javax/time/i18n/TestJapaneseDate.java:137-150 | the era, year of era, month, day of month, day of year (within 1..year length) and day of week (1..7) rules of the chronology return exactly the getters' values; any other rule, such as HourOfDay or another chronology's rule, fails as unsupported naming that rule |
| JapaneseCalendar.CompareTo | src-oracle/test/java/javax/time/i18n/TestJapaneseDate.java:527-548 | the result is -1, 0 or 1, following the order of the dates on the day axis |
| JapaneseCalendar.IsBefore | src-oracle/test/java/javax/time/i18n/TestJapaneseDate.java:527-548 | holds exactly when compareTo is negative |
| JapaneseCalendar.IsAfter | src-oracle/test/java/javax/time/i18n/TestJapaneseDate.java:527-548 | holds exactly when compareTo is positive |
| JapaneseCalendar.CompareToZeroIsEquality | src-oracle/test/java/javax/time/i18n/TestJapaneseDate.java:527-548 | for dates of one era, or dates in the era of their own day, compareTo is 0 exactly for equal dates |
| JapaneseCalendar.CompareToAntisymmetric | src-oracle/test/java/javax/time/i18n/TestJapaneseDate.java:527-548 | swapping the operands negates compareTo |
| JapaneseCalendar.CompareToTransitive | src-oracle/test/java/javax/time/i18n/TestJapaneseDate.java:527-548 | compareTo orders transitively |
| JapaneseCalendar.AscendingIsStrict | src-oracle/test/java/javax/time/i18n/TestJapaneseDate.java:527-548 | in an ascending list, an earlier position means an earlier day |
| JapaneseCalendar.ComparisonsFollowPositions | src-oracle/test/java/javax/time/i18n/TestJapaneseDate.java:527-548 | in an ascending list, compareTo, isBefore, isAfter and equality all agree with the positions |
| JapaneseCalendar.AscendingByFields | src-oracle/test/java/javax/time/i18n/TestJapaneseDate.java:511-524 | valid dates whose Gregorian dates are in written order are strictly ascending |
| JapaneseCalendar.OrderedDatesAscending | src-oracle/test/java/javax/time/i18n/TestJapaneseDate.java:511-524 | the tests' twelve dates are in ascending order |
| JapaneseCalendar.FirstSpace | src-oracle/test/java/javax/time/i18n/TestJapaneseDate.java:644-646 | finds the first space of a string, or reports that there is none |
| JapaneseCalendar.ToString | src-oracle/test/java/javax/time/i18n/TestJapaneseDate.java:644-646 | the text form reads back as the era, year of era, month and day |
| JapaneseCalendar.TestToString | src-oracle/test/java/javax/time/i18n/TestJapaneseDate.java:644-646 | HEISEI 21-03-03 prints as `HEISEI 21-03-03 (Japanese)` |
| JapaneseCalendar.ToLocalDate | src-oracle/test/java/javax/time/i18n/TestJapaneseDate.java:493-494 | the ISO date is valid, has the mapped year with the same month and day, and sits at the same position |
| JapaneseCalendar.FromLocalDate | src-oracle/test/java/javax/time/i18n/TestJapaneseDate.java:79-83 | the Japanese date of an ISO date is in the era in force then and converts back to it; beyond year of era 9999 it fails naming the year of era |
| JapaneseCalendar.LocalDateRoundTrip | src-oracle/test/java/javax/time/i18n/TestJapaneseDate.java:79-83 | converting a date in the era of its own day to ISO and back returns it |
| JapaneseCalendar.DayOfWeekMatchesLocalDate | src-oracle/test/java/javax/time/i18n/TestJapaneseDate.java:197-201 | the day of week equals that of the ISO date of the same day |
| JapaneseCalendar.DayOfWeekOfNextDay | src-oracle/test/java/javax/time/i18n/TestJapaneseDate.java:185-195 | the next day's day of week is one more, wrapping from 7 to 1 |
| JapaneseCalendar.TestDateFields | src-oracle/test/java/javax/time/i18n/TestJapaneseDate.java:30-43 | HEISEI 21 is the common year 2009, so 03-03 is day 62 |
| JapaneseCalendar.TestOracleLeapYear | src-oracle/test/java/javax/time/i18n/TestJapaneseDate.java:649-666 | the tests' own leap test agrees with the date's leap flag for HEISEI 21 |
| JapaneseCalendar.TestDateIsLocalDate | src-oracle/test/java/javax/time/i18n/TestJapaneseDate.java:491-495 | HEISEI 21-03-03 is the ISO date 2009-03-03, and the conversion back gives it again |
| JapaneseCalendar.TestGet | src-oracle/test/java/javax/time/i18n/TestJapaneseDate.java:137-150 | the field values of HEISEI 21-03-03, and HourOfDay is unsupported |
| JapaneseCalendar.TestWeekDays | src-oracle/test/java/javax/time/i18n/TestJapaneseDate.java:185-195 | HEISEI 21-03-02 to 21-03-09 fall on days 1 to 7 and then 1 again |
| JapaneseCalendar.TestValidationFailures | src-oracle/test/java/javax/time/i18n/TestJapaneseDate.java:102-351 | each invalid factory and replacement of the tests fails naming its field |
| JapaneseCalendar.TestReplacements | src-oracle/test/java/javax/time/i18n/TestJapaneseDate.java:211-332 | the successful replacements of the tests, including SHOWA 48 and day of year 15 |
| JapaneseCalendar.TestYearMonthArithmetic | src-oracle/test/java/javax/time/i18n/TestJapaneseDate.java:357-440 | plusYears(10), minusYears(10), plusMonths(5) and minusMonths(1) give the tests' dates |
| JapaneseCalendar.TestMinusWeeks | src-oracle/test/java/javax/time/i18n/TestJapaneseDate.java:473-476 | minusWeeks(2) from HEISEI 21-03-03 gives 21-02-17 |
| JapaneseCalendar.TestArithmeticFailures | src-oracle/test/java/javax/time/i18n/TestJapaneseDate.java:362-449 | plusYears(9999), minusYears(20000) and plus/minusMonths(Integer.MAX_VALUE) fail naming the year of era |
| WeekOfWeekyearField.WeekOfWeekyear.constructor | src/main/java/javax/time/calendar/field/WeekOfWeekyear.java:136-138 | the new instance holds the number given |
| WeekOfWeekyearField.WeekOfWeekyear.GetValue | src/main/java/javax/time/calendar/field/WeekOfWeekyear.java:155-157 | returns the week number the instance was made for |
| WeekOfWeekyearField.WeekOfWeekyear.IsValid | src/main/java/javax/time/calendar/field/WeekOfWeekyear.java:176-178 | for a week of 1..53 and a year of 52 or 53 weeks, the week is valid exactly when it is at most the year's length in weeks |
| WeekOfWeekyearField.WeekOfWeekyear.CompareTo | src/main/java/javax/time/calendar/field/WeekOfWeekyear.java:188-192 | the result is -1, 0 or 1 as this number is below, equal to or above the other |
| WeekOfWeekyearField.WeekOfWeekyear.Equals | src/main/java/javax/time/calendar/field/WeekOfWeekyear.java:202-210 | equal exactly to another week object of the same number; the identity test is subsumed by it |
| WeekOfWeekyearField.WeekOfWeekyear.HashCode | src/main/java/javax/time/calendar/field/WeekOfWeekyear.java:218-220 | the hash code is the week number, so equal weeks hash alike |
| WeekOfWeekyearField.WeekOfWeekyear.ToString | src/main/java/javax/time/calendar/field/WeekOfWeekyear.java:228-230 | the text starts with `WeekOfWeekyear=` and continues after it |
| WeekOfWeekyearField.OutOfRange | src/main/java/javax/time/calendar/field/WeekOfWeekyear.java:112-114 | the failure names the week rule, bounds 1 and 53, and a value outside them |
| WeekOfWeekyearField.OutOfRangeAsWritten | src/main/java/javax/time/calendar/field/WeekOfWeekyear.java:105-114 | the failure as built after the decrement carries one less than the number requested |
| WeekOfWeekyearField.AsWrittenReportsValidWeek | src/main/java/javax/time/calendar/field/WeekOfWeekyear.java:105-114 | a request for week 54 is reported as week 53, a value inside the bounds it names |
| WeekOfWeekyearField.OutOfRangeNamesRequest | src/main/java/javax/time/calendar/field/WeekOfWeekyear.java:112-114 | the corrected failure names the requested number, which the as-written failure never does |
| WeekOfWeekyearField.WeekOfWeekyearCache.constructor | src/main/java/javax/time/calendar/field/WeekOfWeekyear.java:71 | the cache starts with 53 empty slots |
| WeekOfWeekyearField.WeekOfWeekyearCache.Of | src/main/java/javax/time/calendar/field/WeekOfWeekyear.java:103-115 | succeeds exactly for 1..53 with an instance of that number, kept in slot n - 1; a filled slot's instance is returned as is; an empty slot gets a new one; other slots are unchanged; any other number fails naming it |
| WeekOfWeekyearField.WeekOfWeekyearCache.ReadResolve | src/main/java/javax/time/calendar/field/WeekOfWeekyear.java:145-147 | a deserialised week is replaced by the cached instance of its number |
| WeekOfWeekyearField.RepeatedRequestsShareInstance | src/main/java/javax/time/calendar/field/WeekOfWeekyear.java:105-110 | two requests for the same number return one and the same instance |
| WeekOfWeekyearField.CompareToAntisymmetric | src/main/java/javax/time/calendar/field/WeekOfWeekyear.java:188-192 | swapping the operands negates compareTo |
| WeekOfWeekyearField.CompareToTransitive | src/main/java/javax/time/calendar/field/WeekOfWeekyear.java:188-192 | compareTo orders transitively |
| WeekOfWeekyearField.EqualsAgreesWithCompareTo | src/main/java/javax/time/calendar/field/WeekOfWeekyear.java:202-220 | two weeks are equal exactly when compareTo is 0, and equal weeks have equal hash codes |
| WeekOfWeekyearField.NotEqualToNull | src/main/java/javax/time/calendar/field/WeekOfWeekyear.java:202-210 | no week equals null |
| WeekOfWeekyearField.ToStringRoundTrip | src/main/java/javax/time/calendar/field/WeekOfWeekyear.java:228-230 | the text after the prefix parses back to the week number |
| WeekOfWeekyearField.ToStringInjective | src/main/java/javax/time/calendar/field/WeekOfWeekyear.java:228-230 | different week numbers have different text forms |

## Left out

- The sources of `HijrahDate`, `HijrahChronology`, `JapaneseDate`, `JapaneseChronology`, `LocalDate` and `Weekyear` are not part of this model. Their behaviour is reconstructed from the assertions and oracle helpers of the two test classes.
- Hijrah leap years are computed from the proleptic year. For HIJRAH dates this is the year of era, as in the oracle. The tests never apply the oracle to a BEFORE_HIJRAH date, so that case is not pinned down.
- Null arguments (`NullPointerException`) and `ClassCastException` in comparisons are not modelled, because Dafny values cannot be null or of the wrong type.
- Serialisation round trips, the reflection-based immutability checks and the hashCode stability tests of the two date classes are not modelled. They concern JVM object streams and reflection.
- `toCalendrical` of the dates and of `WeekOfWeekyear`, and `WeekOfWeekyear.rule()`, are not modelled. They depend on the `Calendrical` container and the ISO chronology, which are not part of this model.
- Gregorian conversion is modelled through a self-contained proleptic Gregorian day axis, not through the library's `LocalDate`.
- The Hijrah and Japanese `hashCode` methods are not modelled.
- Java `int` overflow is not modelled; all integers are unbounded. This includes `Integer.MIN_VALUE - 1` wrapping in the week factory's decrement. Arithmetic with `Integer.MAX_VALUE` is stated for every amount of at least that size.
- The `AtomicReferenceArray` cache is a sequential array. Its thread safety is not modelled, only the rule that a slot is written only while empty.
- `weekOfWeekyear(DateProvider)` is not modelled. It is a placeholder that always returns a new week 1.
- WeekOfWeekyearField.WeekOfWeekyear.IsValid: takes the weekyear's length in weeks rather than a `Weekyear` object.
- WeekOfWeekyearField.WeekOfWeekyear.Equals: other kinds of object are recognised with a type test on `object?`. No second class of object exists in the model to compare against.
- HijrahCalendar.PlusYears, HijrahCalendar.PlusMonths, JapaneseCalendar.PlusYears and JapaneseCalendar.PlusMonths (and their Minus forms): a day that does not exist after the shift fails naming the day-of-month field, as the factory does when it re-validates. The library's own description says such a failure names the year of era. The tests do not cover the case, and the date classes are not part of this model.
- HijrahCalendar.ToString: the text leaves out the era, and prints years below 1000 without padding. So a BEFORE_HIJRAH date prints like the HIJRAH date with the same fields. The tests pin only the text of 1430-03-05; the other choices are reconstructed.
- JapaneseCalendar.CompareTo: states 0 as "same day" for all dates. Equality of dates is stated only for dates of one era or dates in the era of their own day (`CompareToZeroIsEquality`), because two eras can name the same day.

## Findings

| source | as written | input that shows it | evidently intended | confidence | as-written member | corrected member |
|---|---|---|---|---|---|---|
| src/main/java/javax/time/calendar/field/WeekOfWeekyear.java:105-114 | the range failure reports the week number after it was decremented into a slot index | `weekOfWeekyear(54)` reports value 53, inside the bounds 1..53 it names; `weekOfWeekyear(0)` reports -1 | the failure reports the number the caller passed | not executed | WeekOfWeekyearField.OutOfRangeAsWritten | WeekOfWeekyearField.OutOfRange |
