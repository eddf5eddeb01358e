/**
 * Field rules and the error taxonomy shared by every calendar system.
 *
 * A field rule is identified by the chronology that owns it and the field
 * it describes; two rules are equal only when both agree.  Every failing
 * operation returns one of the conditions below instead of a value.
 */
module CalendarFields {

  /** The calendar systems of the model. */
  datatype Chronology = IsoChronology | HijrahChronology | JapaneseChronology

  /** The fields a rule can describe.  HourOfDay is a time field: no date chronology supports it. */
  datatype FieldName =
    | Era
    | YearOfEra
    | MonthOfYear
    | DayOfMonth
    | DayOfYear
    | DayOfWeek
    | WeekOfWeekyear
    | HourOfDay

  datatype Rule = Rule(chronology: Chronology, field: FieldName)

  /** The conditions an operation can fail with. */
  datatype CalendricalError =
    | FieldOutOfRange(rule: Rule, value: int, min: int, max: int)
    | UnsupportedField(rule: Rule)

  datatype Result<T> = Ok(value: T) | Err(error: CalendricalError)

  /** True when `r` failed and the failure names `rule`. */
  predicate FailsOn<T>(r: Result<T>, rule: Rule)
  {
    r.Err? && r.error.FieldOutOfRange? && r.error.rule == rule
  }

  /** A value checked against the closed range [min, max] of a rule. */
  function CheckRange(rule: Rule, value: int, min: int, max: int): (r: Result<int>)
    ensures r.Ok? <==> min <= value <= max
    ensures r.Ok? ==> r.value == value
    ensures r.Err? ==> r.error == FieldOutOfRange(rule, value, min, max)
  {
    if min <= value <= max then Ok(value) else Err(FieldOutOfRange(rule, value, min, max))
  }

  /** The amount a subtraction hands on to the matching addition: `n` in the opposite direction. */
  function Negate(n: int): int
  {
    -n
  }

  /** The -1 / 0 / 1 result of comparing two integers. */
  function Compare(a: int, b: int): (r: int)
    ensures r == -1 || r == 0 || r == 1
    ensures r < 0 <==> a < b
    ensures r == 0 <==> a == b
    ensures r > 0 <==> a > b
  {
    if a < b then -1 else if a == b then 0 else 1
  }
}
