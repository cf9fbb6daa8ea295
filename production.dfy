/**
 * The pure helpers of the course-production report: the course filter, the
 * term label of a course round's start date and the enumeration of term
 * labels a chart shows.
 *
 * A term label is `VT` (spring), `ST` (summer) or `HT` (autumn) followed by
 * a two-digit year. The enumeration as written renders the year with `str`,
 * which drops the leading zero of the years 00-09, so it never produces the
 * labels the dates of those years get; `GenerateSemesters` is the corrected
 * enumeration, and `GenerateSemestersAsWritten` keeps the original.
 */
module Production {
  import opened Wrappers
  import opened Text
  import opened Numbers
  import opened Dates

  /**
   * `is_a_keeper`. An absent list or prefix is the empty one: Python treats
   * `None` and empty alike as false. A non-empty explicit list decides alone;
   * otherwise an exclusion prefix wins over a restriction prefix.
   */
  function IsAKeeper(course: string, explicit: seq<string>, restriction: string, exclusion: string): (keep: bool)
    ensures explicit != [] ==> (keep <==> course in explicit)
    ensures explicit == [] && exclusion != "" ==> (keep <==> !(exclusion <= course))
    ensures explicit == [] && exclusion == "" && restriction != "" ==> (keep <==> restriction <= course)
    ensures explicit == [] && exclusion == "" && restriction == "" ==> keep
  {
    if explicit != [] then
      course in explicit
    else if exclusion != "" then
      SliceEqualsPrefix(course, exclusion);
      Slice(course, 0, |exclusion|) != exclusion
    else if restriction != "" then
      SliceEqualsPrefix(course, restriction);
      Slice(course, 0, |restriction|) == restriction
    else
      true
  }

  /** Why `year_semester` raises. */
  datatype Error =
    | NotThreeParts(date: string)  // the unpacking of `date.split('-')` fails
    | BadMonth(text: string)       // `int(month)` fails

  /** The term names in the order a year runs through them. */
  const Terms: seq<string> := ["VT", "ST", "HT"]

  /** The position in `Terms` of the term a month falls in: spring to May, summer in June and July, autumn from August. */
  function TermIndex(month: int): (t: nat)
    ensures t < 3
  {
    if month < 6 then 0 else if month < 8 then 1 else 2
  }

  /**
   * `year_semester`: the term of the date's month followed by characters 2-3
   * of its year field.
   */
  function YearSemester(date: string): (r: Result<string, Error>)
    ensures r.Success? <==> |Split(date, '-')| == 3 && ParseInt(Split(date, '-')[1]).Some?
    ensures r.Success? ==>
      var parts := Split(date, '-');
      r.value == Terms[TermIndex(ParseInt(parts[1]).value)] + Slice(parts[0], 2, 4)
  {
    var parts := Split(date, '-');
    if |parts| != 3 then
      Failure(NotThreeParts(date))
    else
      match ParseInt(parts[1])
      case None => Failure(BadMonth(parts[1]))
      case Some(month) => Success(Terms[TermIndex(month)] + Slice(parts[0], 2, 4))
  }

  /** The last two digits of a four-digit rendering are the two-digit rendering of the number modulo 100. */
  lemma LastTwoDigits(n: nat)
    ensures FixedDigits(n, 4)[2..] == FixedDigits(n % 100, 2)
  {
    var r := n % 100;
    assert n == 100 * (n / 100) + r;
    assert n / 10 == 10 * (n / 100) + r / 10;
    assert (n / 10) % 10 == r / 10;
    assert r % 10 == n % 10;
    assert FixedDigits(n, 4) == FixedDigits(n / 100, 2) + [DigitChar((n / 10) % 10)] + [DigitChar(n % 10)];
    assert FixedDigits(r, 2) == [DigitChar(r / 10)] + [DigitChar(r % 10)];
  }

  /**
   * On a date rendered in ISO form, `year_semester` gives the term of its
   * month followed by its year modulo 100 in two digits.
   */
  lemma YearSemesterOfIsoDate(d: Date)
    requires Valid(d)
    ensures YearSemester(FormatIsoDate(d)) == Success(Terms[TermIndex(d.month)] + FixedDigits(d.year % 100, 2))
  {
    var y, m, dd := FixedDigits(d.year, 4), FixedDigits(d.month, 2), FixedDigits(d.day, 2);
    var parts: seq<string> := [y, m, dd];
    assert '-' !in y && '-' !in m && '-' !in dd by {
      assert forall i :: 0 <= i < |y| ==> IsDigit(y[i]);
      assert forall i :: 0 <= i < |m| ==> IsDigit(m[i]);
      assert forall i :: 0 <= i < |dd| ==> IsDigit(dd[i]);
    }
    assert forall i :: 0 <= i < 3 ==> '-' !in parts[i];
    SplitJoin(parts, '-');
    assert parts[1..] == [m, dd] && [m, dd][1..] == [dd];
    assert Join([m, dd], '-') == m + "-" + dd;
    assert Join(parts, '-') == y + "-" + (m + "-" + dd);
    assert Join(parts, '-') == FormatIsoDate(d);
    SignAndBodyOfDigits(m, false);
    assert Pow10(2) == 100;
    FixedDigitsValue(d.month, 2);
    assert ParseInt(m) == Some(d.month);
    LastTwoDigits(d.year);
    assert Slice(y, 2, 4) == FixedDigits(d.year % 100, 2);
  }

  /** `generate_semesters` with the year label as a parameter: three labels per year, in year order. */
  function Semesters(start: int, end: int, render: int -> string): (r: seq<string>)
    ensures |r| == if end < start then 0 else 3 * (end - start + 1)
    decreases end - start
  {
    if end < start then []
    else Semesters(start, end - 1, render) + [Terms[0] + render(end), Terms[1] + render(end), Terms[2] + render(end)]
  }

  /** Label `i` is term `i % 3` of year `start + i / 3`. */
  lemma {:induction false} SemestersAt(start: int, end: int, render: int -> string, i: nat)
    requires i < |Semesters(start, end, render)|
    ensures Semesters(start, end, render)[i] == Terms[i % 3] + render(start + i / 3)
    decreases end - start
  {
    var prev := Semesters(start, end - 1, render);
    if i < |prev| {
      SemestersAt(start, end - 1, render, i);
    } else {
      assert i / 3 == end - start;
    }
  }

  /** `generate_semesters` as written: the year is rendered with `str`, without zero padding. */
  function GenerateSemestersAsWritten(start: int, end: int): (r: seq<string>)
    ensures |r| == if end < start then 0 else 3 * (end - start + 1)
    ensures forall i :: 0 <= i < |r| ==> r[i] == Terms[i % 3] + IntToString(start + i / 3)
  {
    var r := Semesters(start, end, IntToString);
    assert forall i :: 0 <= i < |r| ==> r[i] == Terms[i % 3] + IntToString(start + i / 3) by {
      forall i | 0 <= i < |r| {
        SemestersAt(start, end, IntToString, i);
      }
    }
    r
  }

  /** The year label the date side produces: two digits, zero-padded (`f'{year:02d}'`). */
  function TwoDigits(year: int): string
  {
    if 0 <= year < 10 then "0" + NatToString(year) else IntToString(year)
  }

  /** The corrected `generate_semesters`: the same enumeration with zero-padded years. */
  function GenerateSemesters(start: int, end: int): (r: seq<string>)
    ensures |r| == if end < start then 0 else 3 * (end - start + 1)
    ensures forall i :: 0 <= i < |r| ==> r[i] == Terms[i % 3] + TwoDigits(start + i / 3)
  {
    var r := Semesters(start, end, TwoDigits);
    assert forall i :: 0 <= i < |r| ==> r[i] == Terms[i % 3] + TwoDigits(start + i / 3) by {
      forall i | 0 <= i < |r| {
        SemestersAt(start, end, TwoDigits, i);
      }
    }
    r
  }

  /** For the years 0-99 the padded label is the two-digit rendering. */
  lemma TwoDigitsFixed(year: nat)
    requires year < 100
    ensures TwoDigits(year) == FixedDigits(year, 2)
  {
    if year >= 10 {
      assert NatToString(year) == NatToString(year / 10) + [DigitChar(year % 10)];
    }
  }

  /**
   * Every ISO date whose year modulo 100 lies in `[start, end]` gets a label
   * the corrected enumeration contains: term `TermIndex(month)` of year
   * `year % 100`.
   */
  lemma GeneratedCoversDates(d: Date, start: int, end: int)
    requires Valid(d) && start <= d.year % 100 <= end
    ensures YearSemester(FormatIsoDate(d)).Success?
    ensures var i := 3 * (d.year % 100 - start) + TermIndex(d.month);
      i < |GenerateSemesters(start, end)| && GenerateSemesters(start, end)[i] == YearSemester(FormatIsoDate(d)).value
  {
    YearSemesterOfIsoDate(d);
    var i := 3 * (d.year % 100 - start) + TermIndex(d.month);
    assert i % 3 == TermIndex(d.month) && i / 3 == d.year % 100 - start;
    SemestersAt(start, end, TwoDigits, i);
    TwoDigitsFixed(d.year % 100);
  }

  /** `str(n)` of a number of at least two digits does not start with `0`. */
  lemma {:induction false} NoLeadingZero(n: nat)
    requires n >= 10
    ensures NatToString(n)[0] != '0'
  {
    if n >= 100 {
      NoLeadingZero(n / 10);
    }
    assert NatToString(n) == NatToString(n / 10) + [DigitChar(n % 10)];
  }

  /**
   * As written, no label of the enumeration is the label of a date in a year
   * ending in 00-09: those labels have a `0` before their last digit, and
   * `str` never writes one there.
   */
  lemma AsWrittenMissesLeadingZeroYears(d: Date, start: int, end: int)
    requires Valid(d) && d.year % 100 < 10
    ensures YearSemester(FormatIsoDate(d)).Success?
    ensures YearSemester(FormatIsoDate(d)).value !in GenerateSemestersAsWritten(start, end)
  {
    YearSemesterOfIsoDate(d);
    var term := YearSemester(FormatIsoDate(d)).value;
    TwoDigitsFixed(d.year % 100);
    assert term[2..] == "0" + NatToString(d.year % 100);
    if term in GenerateSemestersAsWritten(start, end) {
      var i :| 0 <= i < |GenerateSemestersAsWritten(start, end)| && GenerateSemestersAsWritten(start, end)[i] == term;
      SemestersAt(start, end, IntToString, i);
      var y := start + i / 3;
      assert term[2..] == IntToString(y);
      assert |term[2..]| == 2 && term[2..][0] == '0';
      if y >= 10 {
        NoLeadingZero(y);
      }
      assert false;
    }
  }

  /**
   * The smallest witness: a round starting 2005-03-01 falls in `VT05`, which
   * the years 5 to 5 list only once the years are padded.
   */
  lemma AsWrittenCounterexample(d: Date, start: int, end: int)
    requires d == Date(2005, 3, 1) && start == 5 && end == 5
    ensures Valid(d)
    ensures YearSemester(FormatIsoDate(d)) == Success("VT05")
    ensures "VT05" !in GenerateSemestersAsWritten(start, end)
    ensures "VT05" in GenerateSemesters(start, end)
  {
    WitnessValid(d);
    PaddedFive(d.year % 100);
    assert Terms[TermIndex(d.month)] + FixedDigits(d.year % 100, 2) == "VT05";
    YearSemesterOfIsoDate(d);
    AsWrittenMissesLeadingZeroYears(d, start, end);
    GeneratedCoversDates(d, start, end);
  }

  /** 2005-03-01 is a date. */
  lemma WitnessValid(d: Date)
    requires d == Date(2005, 3, 1)
    ensures Valid(d)
  {
  }

  /** The label of year 2005. */
  lemma PaddedFive(n: nat)
    requires n == 5
    ensures FixedDigits(n, 2) == "05"
  {
    assert FixedDigits(n / 10, 1) == "0";
  }
}
