/** Calendar dates as `read_course_results` compares them against the cutoff date. */
module Dates {
  import opened Wrappers
  import opened Numbers

  /** A `datetime.date`; dates order as (year, month, day) triples. */
  datatype Date = Date(year: int, month: int, day: int)

  /** `a > b` on dates. */
  predicate IsAfter(a: Date, b: Date)
  {
    || a.year > b.year
    || (a.year == b.year && a.month > b.month)
    || (a.year == b.year && a.month == b.month && a.day > b.day)
  }

  predicate IsLeapYear(y: int)
  {
    y % 4 == 0 && (y % 100 != 0 || y % 400 == 0)
  }

  function DaysInMonth(y: int, m: int): int
    requires 1 <= m <= 12
  {
    if m == 2 then (if IsLeapYear(y) then 29 else 28)
    else if m in {4, 6, 9, 11} then 30
    else 31
  }

  /** The dates `datetime.date` can represent. */
  predicate Valid(d: Date)
  {
    && 1 <= d.year <= 9999
    && 1 <= d.month <= 12
    && 1 <= d.day <= DaysInMonth(d.year, d.month)
  }

  /** `d.isoformat()`: `YYYY-MM-DD` with zero padding. */
  function FormatIsoDate(d: Date): string
    requires Valid(d)
  {
    FixedDigits(d.year, 4) + "-" + FixedDigits(d.month, 2) + "-" + FixedDigits(d.day, 2)
  }

  /**
   * `date.fromisoformat(s)` for the `YYYY-MM-DD` form: None where Python raises
   * ValueError, that is for any other shape or a day the calendar does not have.
   */
  function ParseIsoDate(s: string): (r: Option<Date>)
    ensures r.Some? ==> Valid(r.value)
  {
    if |s| == 10 && s[4] == '-' && s[7] == '-' && AllDigits(s[..4]) && AllDigits(s[5..7]) && AllDigits(s[8..]) then
      var d := Date(DigitsValue(s[..4]), DigitsValue(s[5..7]), DigitsValue(s[8..]));
      if Valid(d) then Some(d) else None
    else
      None
  }

  /** Whatever `ParseIsoDate` accepts is exactly the ISO rendering of the date it returns. */
  lemma ParsedDateFormatsBack(s: string)
    requires ParseIsoDate(s).Some?
    ensures FormatIsoDate(ParseIsoDate(s).value) == s
  {
    var y, m, d := s[..4], s[5..7], s[8..];
    DigitsFixed(y);
    DigitsFixed(m);
    DigitsFixed(d);
    assert FormatIsoDate(ParseIsoDate(s).value) == y + "-" + m + "-" + d;
    assert s == y + "-" + m + "-" + d;
  }

  /** Every representable date survives rendering and parsing, so the two are inverse. */
  lemma ParseFormatRoundTrip(d: Date)
    requires Valid(d)
    ensures ParseIsoDate(FormatIsoDate(d)) == Some(d)
  {
    var s := FormatIsoDate(d);
    var y, m, dd := FixedDigits(d.year, 4), FixedDigits(d.month, 2), FixedDigits(d.day, 2);
    assert s[..4] == y && s[5..7] == m && s[8..] == dd;
    assert Pow10(2) == 100 && Pow10(4) == 10000;
    FixedDigitsValue(d.year, 4);
    FixedDigitsValue(d.month, 2);
    FixedDigitsValue(d.day, 2);
  }
}
