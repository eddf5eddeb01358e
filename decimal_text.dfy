/**
 * Decimal rendering of integers, as Java's string concatenation and the
 * two-digit fields of the date formats produce them, together with the
 * parser that inverts each rendering.
 */
module DecimalText {

  predicate IsDigit(c: char)
  {
    '0' <= c <= '9'
  }

  function DigitChar(n: int): (c: char)
    requires 0 <= n < 10
    ensures IsDigit(c)
  {
    "0123456789"[n]
  }

  function DigitValue(c: char): (n: int)
    requires IsDigit(c)
    ensures 0 <= n < 10
  {
    c as int - '0' as int
  }

  lemma DigitRoundTrip(n: int)
    requires 0 <= n < 10
    ensures DigitValue(DigitChar(n)) == n
  {
  }

  /** The shortest decimal string of `n` (no sign, no leading zero). */
  function NatToString(n: nat): (s: string)
    ensures |s| >= 1 && IsDigit(s[0])
  {
    if n < 10 then [DigitChar(n)] else NatToString(n / 10) + [DigitChar(n % 10)]
  }

  /** Java's decimal form of an int: a minus sign for negative values. */
  function IntToString(i: int): (s: string)
    ensures |s| >= 1
  {
    if i < 0 then "-" + NatToString(-i) else NatToString(i)
  }

  /** Exactly two digits, with a leading zero below ten (the `MM` and `dd` of the formats). */
  function TwoDigits(n: int): (s: string)
    requires 0 <= n < 100
    ensures |s| == 2 && IsDigit(s[0]) && IsDigit(s[1])
  {
    [DigitChar(n / 10), DigitChar(n % 10)]
  }

  predicate AllDigits(s: string)
  {
    forall i :: 0 <= i < |s| ==> IsDigit(s[i])
  }

  /** The value of a non-empty string of digits, most significant first. */
  function DigitsValue(s: string): (n: nat)
    requires |s| >= 1 && AllDigits(s)
  {
    if |s| == 1 then DigitValue(s[0]) else DigitsValue(s[..|s| - 1]) * 10 + DigitValue(s[|s| - 1])
  }

  /** Parses an optional minus sign followed by digits; None for anything else. */
  function ParseInt(s: string): (r: Option<int>)
    ensures r.Some? && |s| >= 1 && s[0] != '-' ==> r.value >= 0
  {
    if |s| >= 2 && s[0] == '-' then
      if AllDigits(s[1..]) then Some(-(DigitsValue(s[1..]) as int)) else None
    else if |s| >= 1 && AllDigits(s) then Some(DigitsValue(s) as int)
    else None
  }

  datatype Option<T> = None | Some(value: T)

  lemma {:induction false} NatToStringRoundTrip(n: nat)
    ensures AllDigits(NatToString(n))
    ensures DigitsValue(NatToString(n)) == n
  {
    if n < 10 {
      DigitRoundTrip(n);
    } else {
      var prefix := NatToString(n / 10);
      var s := NatToString(n);
      NatToStringRoundTrip(n / 10);
      assert s == prefix + [DigitChar(n % 10)];
      assert s[..|s| - 1] == prefix;
      DigitRoundTrip(n % 10);
    }
  }

  /** A digit string parses to its value. */
  lemma ParseDigits(t: string)
    requires |t| >= 1 && AllDigits(t)
    ensures ParseInt(t) == Some(DigitsValue(t) as int)
  {
    assert IsDigit(t[0]);
  }

  /** A minus sign followed by a digit string parses to the negated value. */
  lemma ParseNegative(t: string)
    requires |t| >= 1 && AllDigits(t)
    ensures ParseInt("-" + t) == Some(-(DigitsValue(t) as int))
  {
    assert ("-" + t)[1..] == t;
  }

  /** Parsing the decimal form of any int gives the int back. */
  lemma IntToStringRoundTrip(i: int)
    ensures ParseInt(IntToString(i)) == Some(i)
  {
    if i < 0 {
      NatToStringRoundTrip(-i);
      ParseNegative(NatToString(-i));
    } else {
      NatToStringRoundTrip(i);
      ParseDigits(NatToString(i));
    }
  }

  /** Reading back two digits gives the value written. */
  lemma TwoDigitsRoundTrip(n: int)
    requires 0 <= n < 100
    ensures DigitsValue(TwoDigits(n)) == n
  {
    var s := TwoDigits(n);
    assert s[..1] == [s[0]];
    DigitRoundTrip(n / 10);
    DigitRoundTrip(n % 10);
  }

  //---------------------------------------------------------------------------
  // The `{year}-{MM}-{dd}` part of the date formats
  //---------------------------------------------------------------------------

  /** Year without padding, then month and day as two digits each, separated by '-'. */
  function DateText(year: nat, month: int, day: int): (s: string)
    requires 0 <= month < 100 && 0 <= day < 100
    ensures |s| >= 7
  {
    NatToString(year) + "-" + TwoDigits(month) + "-" + TwoDigits(day)
  }

  /** Reads `{digits}-{d}{d}-{d}{d}` back into (year, month, day). */
  function ParseDateText(t: string): (r: Option<(int, int, int)>)
  {
    if |t| >= 7 && t[|t| - 6] == '-' && t[|t| - 3] == '-'
       && AllDigits(t[..|t| - 6]) && AllDigits(t[|t| - 5..|t| - 3]) && AllDigits(t[|t| - 2..])
    then Some((DigitsValue(t[..|t| - 6]) as int, DigitsValue(t[|t| - 5..|t| - 3]) as int,
               DigitsValue(t[|t| - 2..]) as int))
    else None
  }

  /** A digit string, a '-', two digits, a '-' and two digits read back as the three values. */
  lemma ParseDateTextOf(ys: string, ms: string, ds: string)
    requires |ys| >= 1 && AllDigits(ys)
    requires |ms| == 2 && AllDigits(ms) && |ds| == 2 && AllDigits(ds)
    ensures ParseDateText(ys + "-" + ms + "-" + ds)
         == Some((DigitsValue(ys) as int, DigitsValue(ms) as int, DigitsValue(ds) as int))
  {
    var a := ys + "-";
    var b := a + ms;
    var c := b + "-";
    var t := c + ds;
    assert t == ys + "-" + ms + "-" + ds;
    assert t[..|c|] == c && t[|c|..] == ds;
    assert c[..|b|] == b && c[|b|] == '-';
    assert b[..|a|] == a && b[|a|..] == ms;
    assert a[..|ys|] == ys && a[|ys|] == '-';
    assert t[..|t| - 6] == b[..|a|][..|ys|];
    assert t[|t| - 5..|t| - 3] == b[|a|..];
  }

  /** Parsing the rendered year, month and day gives them back. */
  lemma DateTextRoundTrip(year: nat, month: int, day: int)
    requires 0 <= month < 100 && 0 <= day < 100
    ensures ParseDateText(DateText(year, month, day)) == Some((year as int, month, day))
  {
    NatToStringRoundTrip(year);
    TwoDigitsRoundTrip(month);
    TwoDigitsRoundTrip(day);
    ParseDateTextOf(NatToString(year), TwoDigits(month), TwoDigits(day));
  }
}
