/** `DateTime.TryParseExact(date, "yyyy-MM-dd", ...)` over the proleptic
    Gregorian calendar: exactly four digits, a hyphen, two digits, a hyphen, two
    digits, naming a day that exists (years 1 to 9999). */
module Dates {
  import opened Wrappers
  import opened Text

  datatype Date = Date(year: int, month: int, day: int)

  predicate IsLeapYear(y: int) {
    y % 4 == 0 && (y % 100 != 0 || y % 400 == 0)
  }

  function DaysInMonth(y: int, m: int): (d: int)
    requires 1 <= m <= 12
    ensures 28 <= d <= 31
    ensures d == 29 <==> m == 2 && IsLeapYear(y)
  {
    if m == 2 then (if IsLeapYear(y) then 29 else 28)
    else if m == 4 || m == 6 || m == 9 || m == 11 then 30
    else 31
  }

  /** A day of the calendar `DateTime` can represent. */
  predicate IsValidDate(d: Date) {
    1 <= d.year <= 9999 && 1 <= d.month <= 12 && 1 <= d.day <= DaysInMonth(d.year, d.month)
  }

  /** The format `yyyy-MM-dd` as an anchored pattern. */
  const DateFormat: seq<Token> :=
    [AnyDigit, AnyDigit, AnyDigit, AnyDigit, Literal('-'), AnyDigit, AnyDigit, Literal('-'), AnyDigit, AnyDigit]

  /** The year, month and day written in a string of the date format. */
  function FieldsOf(s: string): (d: Date)
    requires MatchesExactly(DateFormat, s)
    ensures 0 <= d.year <= 9999 && 0 <= d.month <= 99 && 0 <= d.day <= 99
  {
    MatchesExactlyIff(DateFormat, s);
    assert AllDigits(s[..4]) && AllDigits(s[5..7]) && AllDigits(s[8..]);
    DigitsBound(s[..4]);
    DigitsBound(s[5..7]);
    DigitsBound(s[8..]);
    Date(DigitsValue(s[..4]), DigitsValue(s[5..7]), DigitsValue(s[8..]))
  }

  /** A string of `k` digits denotes a number below `10^k`. */
  lemma {:induction false} DigitsBound(s: string)
    requires AllDigits(s)
    ensures DigitsValue(s) < Pow10(|s|)
  {
    if s != [] {
      DigitsBound(s[..|s| - 1]);
    }
  }

  /** `TryParseExact` with the exact format `yyyy-MM-dd`: `null`, a string of
      another shape, or a day that does not exist all fail. */
  function TryParseExact(s: Option<string>): (r: Option<Date>)
    ensures r.Some? <==> s.Some? && MatchesExactly(DateFormat, s.value) && IsValidDate(FieldsOf(s.value))
    ensures r.Some? ==> r.value == FieldsOf(s.value) && IsValidDate(r.value)
  {
    if s.None? || !MatchesExactly(DateFormat, s.value) then None
    else if IsValidDate(FieldsOf(s.value)) then Some(FieldsOf(s.value))
    else None
  }

  /** `n` in decimal, left-padded with zeros to `width` digits. */
  function ZeroPad(n: nat, width: nat): (r: string)
  {
    PadLeft(NatToString(n), width, '0')
  }

  /** A valid date written in the format `yyyy-MM-dd`. */
  function FormatDate(d: Date): (r: string)
    requires IsValidDate(d)
  {
    ZeroPad(d.year, 4) + "-" + ZeroPad(d.month, 2) + "-" + ZeroPad(d.day, 2)
  }

  /** A number below `10^width`, zero-padded to `width`, has exactly `width`
      digits and reads back as itself. */
  lemma {:induction false} ZeroPadRoundTrip(n: nat, width: nat)
    requires 1 <= width && n < Pow10(width)
    ensures |ZeroPad(n, width)| == width
    ensures AllDigits(ZeroPad(n, width)) && DigitsValue(ZeroPad(n, width)) == n
  {
    var ns := NatToString(n);
    NatToStringLength(n, width);
    NatToStringRoundTrip(n);
    var z := Repeat('0', width - |ns|);
    if |ns| < width {
      assert ZeroPad(n, width) == z + ns;
    } else {
      assert ZeroPad(n, width) == ns;
      assert z + ns == ns;
    }
    LeadingZerosIgnored(width - |ns|, ns);
  }

  /** Three zero-padded numbers joined by hyphens have the shape `yyyy-MM-dd`,
      and their slices are the three numbers. */
  lemma {:induction false} JoinedFields(y: string, m: string, dd: string)
    requires |y| == 4 && |m| == 2 && |dd| == 2
    requires AllDigits(y) && AllDigits(m) && AllDigits(dd)
    ensures var s := y + "-" + m + "-" + dd;
            MatchesExactly(DateFormat, s) && s[..4] == y && s[5..7] == m && s[8..] == dd
  {
    var s := y + "-" + m + "-" + dd;
    assert s[..4] == y && s[5..7] == m && s[8..] == dd;
    forall i | 0 <= i < 10 ensures TokenMatches(DateFormat[i], s[i]) {
      if i < 4 { assert s[i] == y[i]; }
      else if 5 <= i < 7 { assert s[i] == m[i - 5]; }
      else if 8 <= i { assert s[i] == dd[i - 8]; }
    }
    MatchesExactlyIff(DateFormat, s);
  }

  /** A formatted valid date has the shape `yyyy-MM-dd` and its fields are the
      date's. */
  lemma {:induction false} FormatFields(d: Date)
    requires IsValidDate(d)
    ensures MatchesExactly(DateFormat, FormatDate(d))
    ensures FieldsOf(FormatDate(d)) == d
  {
    ZeroPadRoundTrip(d.year, 4);
    ZeroPadRoundTrip(d.month, 2);
    ZeroPadRoundTrip(d.day, 2);
    JoinedFields(ZeroPad(d.year, 4), ZeroPad(d.month, 2), ZeroPad(d.day, 2));
  }

  /** Every valid date, formatted as `yyyy-MM-dd`, parses back to itself. */
  lemma FormatThenParse(d: Date)
    requires IsValidDate(d)
    ensures TryParseExact(Some(FormatDate(d))) == Some(d)
  {
    FormatFields(d);
  }
}
