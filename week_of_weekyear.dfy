/**
 * The week of a week-based year of ISO-8601, a value from 1 to 53, and the
 * cache that hands out one shared instance per week number.
 *
 * The cache is a 53-slot array of references, slot i holding the instance for
 * week i + 1 once it has been created.  A slot is written only while it is
 * empty, so every later request for the same week gets the same instance.
 */
module WeekOfWeekyearField {
  import F = CalendarFields
  import DecimalText

  const MIN_WEEK := 1
  const MAX_WEEK := 53

  /** The ISO week-of-week-based-year rule: the rule every range failure names. */
  const WeekOfWeekyearRule := F.Rule(F.IsoChronology, F.WeekOfWeekyear)

  /** The prefix of the text form. */
  const TEXT_PREFIX := "WeekOfWeekyear="

  /** An immutable week number; the factory only ever builds values from 1 to 53. */
  class WeekOfWeekyear {
    const value: int

    constructor (value: int)
      ensures this.value == value
    {
      this.value := value;
    }

    /** The week number this instance stands for. */
    function GetValue(): (v: int)
      ensures v == value
    {
      value
    }

    /**
     * Whether this week exists in a week-based year that has
     * `lengthInWeeks` weeks: weeks 1 to 52 exist in every such year,
     * week 53 only in a year of 53 weeks.
     */
    predicate IsValid(lengthInWeeks: int)
      ensures MIN_WEEK <= value <= MAX_WEEK && (lengthInWeeks == 52 || lengthInWeeks == 53) ==>
        (IsValid(lengthInWeeks) <==> value <= lengthInWeeks)
    {
      value < 53 || lengthInWeeks == 53
    }

    /** -1, 0 or 1 as this week number is below, equal to or above the other. */
    function CompareTo(other: WeekOfWeekyear): (r: int)
      ensures r == -1 || r == 0 || r == 1
      ensures r < 0 <==> value < other.value
      ensures r == 0 <==> value == other.value
      ensures r > 0 <==> value > other.value
    {
      if value < other.value then -1 else if value == other.value then 0 else 1
    }

    /** The same instance, or another week of the same number; null and other kinds of object are never equal. */
    predicate Equals(other: object?)
      ensures Equals(other) <==> other is WeekOfWeekyear && (other as WeekOfWeekyear).value == value
    {
      if this == other then true
      else if other is WeekOfWeekyear then value == (other as WeekOfWeekyear).value
      else false
    }

    /** The week number itself, so equal weeks hash alike. */
    function HashCode(): (h: int)
      ensures h == value
    {
      value
    }

    /** `WeekOfWeekyear=` followed by the decimal week number. */
    function ToString(): (s: string)
      ensures |s| > |TEXT_PREFIX| && s[..|TEXT_PREFIX|] == TEXT_PREFIX
    {
      TEXT_PREFIX + DecimalText.IntToString(value)
    }
  }

  //---------------------------------------------------------------------------
  // The range failure of the factory
  //---------------------------------------------------------------------------

  /** The failure for a week number outside 1 to 53, naming that number. */
  function OutOfRange(n: int): (e: F.CalendricalError)
    requires !(MIN_WEEK <= n <= MAX_WEEK)
    ensures e.FieldOutOfRange? && e.rule == WeekOfWeekyearRule
    ensures e.min == MIN_WEEK && e.max == MAX_WEEK
    ensures !(e.min <= e.value <= e.max)
  {
    F.FieldOutOfRange(WeekOfWeekyearRule, n, MIN_WEEK, MAX_WEEK)
  }

  /**
   * The failure as the factory builds it: the week number has already been
   * decremented into a slot index when the index check fails, so the
   * failure carries one less than the number asked for.
   */
  function OutOfRangeAsWritten(n: int): (e: F.CalendricalError)
    requires !(MIN_WEEK <= n <= MAX_WEEK)
    ensures e.FieldOutOfRange? && e.rule == WeekOfWeekyearRule
    ensures e.min == MIN_WEEK && e.max == MAX_WEEK
    ensures e.value + 1 == n
  {
    var index := n - 1;
    F.FieldOutOfRange(WeekOfWeekyearRule, index, MIN_WEEK, MAX_WEEK)
  }

  /** Asking for week 54 is reported as a failure for week 53, a value inside the range it names. */
  lemma AsWrittenReportsValidWeek()
    ensures OutOfRangeAsWritten(54).value == 53
    ensures OutOfRangeAsWritten(54).min <= OutOfRangeAsWritten(54).value <= OutOfRangeAsWritten(54).max
    ensures OutOfRangeAsWritten(0).value == -1 && OutOfRange(0).value == 0
  {
  }

  /** The failure names the number the caller asked for, and that number is outside the range. */
  lemma OutOfRangeNamesRequest(n: int)
    requires !(MIN_WEEK <= n <= MAX_WEEK)
    ensures OutOfRange(n).value == n
    ensures OutOfRangeAsWritten(n).value != OutOfRange(n).value
  {
  }

  //---------------------------------------------------------------------------
  // The singleton cache
  //---------------------------------------------------------------------------

  class WeekOfWeekyearCache {
    const slots: array<WeekOfWeekyear?>

    /** 53 slots; slot i is empty or holds the instance for week i + 1. */
    ghost predicate Valid()
      reads this, slots
    {
      slots.Length == MAX_WEEK
      && forall i :: 0 <= i < slots.Length ==> slots[i] != null ==> slots[i].value == i + 1
    }

    constructor ()
      ensures Valid() && fresh(slots)
      ensures forall i :: 0 <= i < slots.Length ==> slots[i] == null
    {
      slots := new WeekOfWeekyear?[MAX_WEEK](_ => null);
    }

    /**
     * The shared instance for week `n`.  A week from 1 to 53 is looked up in
     * slot n - 1; an empty slot gets a new instance, written only while the
     * slot is still empty and read back after the write.  Any other number
     * misses the slots and fails.
     */
    method Of(n: int) returns (r: F.Result<WeekOfWeekyear>)
      requires Valid()
      modifies slots
      ensures Valid()
      ensures r.Ok? <==> MIN_WEEK <= n <= MAX_WEEK
      ensures r.Ok? ==> r.value.value == n && slots[n - 1] == r.value
      ensures r.Ok? && old(slots[n - 1]) != null ==> r.value == old(slots[n - 1])
      ensures r.Ok? && old(slots[n - 1]) == null ==> fresh(r.value)
      ensures r.Err? ==> r.error == OutOfRange(n)
      ensures forall i :: 0 <= i < slots.Length && i != n - 1 ==> slots[i] == old(slots[i])
    {
      var index := n - 1;
      if !(0 <= index < slots.Length) {
        return F.Err(OutOfRange(n));
      }
      var result := slots[index];
      if result == null {
        var temp := new WeekOfWeekyear(index + 1);
        if slots[index] == null {
          slots[index] := temp;
        }
        result := slots[index];
      }
      return F.Ok(result);
    }

    /** Deserialisation: a week read back from a stream is replaced by the shared instance of its number. */
    method ReadResolve(w: WeekOfWeekyear) returns (r: F.Result<WeekOfWeekyear>)
      requires Valid()
      modifies slots
      ensures Valid()
      ensures r.Ok? <==> MIN_WEEK <= w.value <= MAX_WEEK
      ensures r.Ok? ==> r.value.value == w.value && slots[w.value - 1] == r.value
      ensures r.Err? ==> r.error == OutOfRange(w.value)
      ensures forall i :: 0 <= i < slots.Length && i != w.value - 1 ==> slots[i] == old(slots[i])
    {
      r := Of(w.value);
    }
  }

  /** Two requests for the same week number get one and the same instance. */
  method RepeatedRequestsShareInstance(cache: WeekOfWeekyearCache, n: int)
      returns (first: F.Result<WeekOfWeekyear>, second: F.Result<WeekOfWeekyear>)
    requires cache.Valid()
    modifies cache.slots
    ensures cache.Valid()
    ensures first.Ok? <==> MIN_WEEK <= n <= MAX_WEEK
    ensures first.Ok? ==> second.Ok? && second.value == first.value && first.value.value == n
    ensures first.Err? ==> second == first
  {
    first := cache.Of(n);
    second := cache.Of(n);
  }

  //---------------------------------------------------------------------------
  // Properties of the value operations
  //---------------------------------------------------------------------------

  /** Swapping the operands of CompareTo negates the result. */
  lemma CompareToAntisymmetric(a: WeekOfWeekyear, b: WeekOfWeekyear)
    ensures a.CompareTo(b) == -b.CompareTo(a)
  {
  }

  /** CompareTo orders weeks transitively. */
  lemma CompareToTransitive(a: WeekOfWeekyear, b: WeekOfWeekyear, c: WeekOfWeekyear)
    requires a.CompareTo(b) < 0 && b.CompareTo(c) < 0
    ensures a.CompareTo(c) < 0
  {
  }

  /** Two weeks are equal exactly when they compare as 0, and equal weeks hash alike. */
  lemma EqualsAgreesWithCompareTo(a: WeekOfWeekyear, b: WeekOfWeekyear)
    ensures a.Equals(b) <==> a.CompareTo(b) == 0
    ensures a.Equals(b) ==> a.HashCode() == b.HashCode()
  {
  }

  /** No week equals null. */
  lemma NotEqualToNull(w: WeekOfWeekyear)
    ensures !w.Equals(null)
  {
  }

  /** The text form reads back as the week number after its prefix. */
  lemma ToStringRoundTrip(w: WeekOfWeekyear)
    ensures DecimalText.ParseInt(w.ToString()[|TEXT_PREFIX|..]) == DecimalText.Some(w.value)
  {
    assert w.ToString()[|TEXT_PREFIX|..] == DecimalText.IntToString(w.value);
    DecimalText.IntToStringRoundTrip(w.value);
  }

  /** Different weeks have different text forms. */
  lemma ToStringInjective(a: WeekOfWeekyear, b: WeekOfWeekyear)
    requires a.ToString() == b.ToString()
    ensures a.value == b.value
  {
    ToStringRoundTrip(a);
    ToStringRoundTrip(b);
  }
}
