/**
 * `read_production` and the per-term HÅP totals of `make_bar_diagrams`.
 *
 * A production report opens with metadata lines (`key;value`) up to the
 * column-header line whose first field is `Kurskod`; every later line is one
 * course round. Rounds of the courses the filter keeps are grouped by course
 * code, and a course's rounds are then summed per term.
 */
module ProductionReport {
  import opened Wrappers
  import opened Text
  import opened Numbers
  import opened Dicts
  import opened Production
  import opened Dates
  import opened Seqs

  /** One course round: its HÅP, round code, study pace and start date. */
  datatype Round = Round(hap: real, eventCode: string, pace: string, startDate: string)

  /** A course's entry: name and credits from its first kept row, and all its rounds in file order. */
  datatype Course = Course(name: string, credits: real, rounds: seq<Round>)

  /** The course filter of `is_a_keeper`; empty stands for an absent option. */
  datatype Filter = Filter(explicit: seq<string>, restriction: string, exclusion: string)

  /** A kept data row. */
  datatype Row = Row(code: string, name: string, credits: real, round: Round)

  /** Why `read_production` raises. */
  datatype Error =
    | NoLines               // the file is empty, so the line counter is never bound
    | ShortRow(line: string)  // IndexError: a kept row lacks a field
    | BadNumber(text: string) // ValueError from `make_float`

  /** `line.rstrip().split(';')` */
  function Tokens(line: string): seq<string>
  {
    Split(TrimRight(line, Whitespace), ';')
  }

  /** The column-header line: at least two fields, the first being `Kurskod`. */
  predicate IsHeader(line: string)
  {
    |Tokens(line)| > 1 && Tokens(line)[0] == "Kurskod"
  }

  /** The position of the first header line, or `|lines|` when there is none. */
  function HeaderIndex(lines: seq<string>): (h: nat)
    ensures h <= |lines|
    ensures h < |lines| ==> IsHeader(lines[h])
  {
    if lines == [] then 0
    else if IsHeader(lines[0]) then 0
    else 1 + HeaderIndex(lines[1..])
  }

  /** No line before the header index is a header. */
  lemma {:induction false} HeaderIndexFirst(lines: seq<string>)
    ensures forall i :: 0 <= i < HeaderIndex(lines) ==> !IsHeader(lines[i])
  {
    if lines != [] && !IsHeader(lines[0]) {
      HeaderIndexFirst(lines[1..]);
      forall i | 0 <= i < HeaderIndex(lines)
        ensures !IsHeader(lines[i])
      {
        if i > 0 {
          assert lines[i] == lines[1..][i - 1];
        }
      }
    }
  }

  /** The first header index is characterised by the lines before it. */
  lemma {:induction false} HeaderIndexAt(lines: seq<string>, h: nat)
    requires h <= |lines|
    requires h < |lines| ==> IsHeader(lines[h])
    requires forall i :: 0 <= i < h ==> !IsHeader(lines[i])
    ensures HeaderIndex(lines) == h
  {
    if lines != [] && h > 0 {
      assert !IsHeader(lines[0]);
      forall i | 0 <= i < h - 1
        ensures !IsHeader(lines[1..][i])
      {
        assert lines[1..][i] == lines[i + 1];
      }
      HeaderIndexAt(lines[1..], h - 1);
    }
  }

  /** What a metadata line assigns: its two quote-stripped first fields, when it has two. */
  function MetaEntry(line: string): Option<(string, string)>
  {
    var tokens := Tokens(line);
    if |tokens| > 1 then Some((StripQuotes(tokens[0]), StripQuotes(tokens[1]))) else None
  }

  function MetaEntries(lines: seq<string>): (entries: seq<Option<(string, string)>>)
    ensures |entries| == |lines|
    ensures forall i :: 0 <= i < |lines| ==> entries[i] == MetaEntry(lines[i])
  {
    seq(|lines|, i requires 0 <= i < |lines| => MetaEntry(lines[i]))
  }

  /** The first data line: the one after the header, or the end when there is no header. */
  function DataStart(lines: seq<string>): (start: nat)
    ensures start <= |lines|
  {
    if HeaderIndex(lines) < |lines| then HeaderIndex(lines) + 1 else |lines|
  }

  /** `line.replace('"', '')` */
  function RemoveQuotes(line: string): (r: string)
    ensures '"' !in r
    ensures |r| <= |line|
    ensures '"' !in line ==> r == line
  {
    if line == [] then []
    else (if line[0] == '"' then [] else [line[0]]) + RemoveQuotes(line[1..])
  }

  /** Exactly the quotes are removed: the result is shorter by the number of quotes in the line. */
  lemma {:induction false} RemoveQuotesLength(line: string)
    ensures |RemoveQuotes(line)| == |line| - multiset(line)['"']
  {
    if line != [] {
      assert line == [line[0]] + line[1..];
      RemoveQuotesLength(line[1..]);
    }
  }

  /**
   * Removing quotes works piece by piece: every other character is kept, in
   * its order.
   */
  lemma {:induction false} RemoveQuotesAppend(a: string, b: string)
    ensures RemoveQuotes(a + b) == RemoveQuotes(a) + RemoveQuotes(b)
  {
    if a != [] {
      assert (a + b)[0] == a[0] && (a + b)[1..] == a[1..] + b;
      RemoveQuotesAppend(a[1..], b);
      var head := if a[0] == '"' then [] else [a[0]];
      assert RemoveQuotes(a + b) == head + (RemoveQuotes(a[1..]) + RemoveQuotes(b));
    } else {
      assert a + b == b;
    }
  }

  /**
   * One data line: None for a course the filter drops; otherwise its fields,
   * or the error of the first field access that raises (name, credits at
   * field 2, round code, pace, start date, HÅP at field 12). A row is dropped
   * exactly when the filter rejects its course code; a kept row has all
   * thirteen fields and parsable credits and HÅP, and every such row is kept.
   */
  function ParseRow(line: string, filter: Filter): (r: Result<Option<Row>, Error>)
    ensures var elems := Split(RemoveQuotes(line), ';');
      r.Success? && r.value.None? <==> !IsAKeeper(elems[0], filter.explicit, filter.restriction, filter.exclusion)
    ensures var elems := Split(RemoveQuotes(line), ';');
      r.Success? && r.value.Some? ==>
        && |elems| >= 13 && IsAKeeper(elems[0], filter.explicit, filter.restriction, filter.exclusion)
        && MakeFloat(elems[2]).Some? && MakeFloat(elems[12]).Some?
        && r.value.value == Row(elems[0], elems[1], MakeFloat(elems[2]).value,
                                Round(MakeFloat(elems[12]).value, elems[4], elems[5], elems[9]))
    ensures var elems := Split(RemoveQuotes(line), ';');
      && IsAKeeper(elems[0], filter.explicit, filter.restriction, filter.exclusion)
      && |elems| >= 13 && MakeFloat(elems[2]).Some? && MakeFloat(elems[12]).Some?
      ==> r.Success? && r.value.Some?
  {
    var elems := Split(RemoveQuotes(line), ';');
    if !IsAKeeper(elems[0], filter.explicit, filter.restriction, filter.exclusion) then
      Success(None)
    else if |elems| < 3 then
      Failure(ShortRow(line))
    else
      match MakeFloat(elems[2])
      case None => Failure(BadNumber(elems[2]))
      case Some(credits) =>
        if |elems| < 13 then
          Failure(ShortRow(line))
        else
          match MakeFloat(elems[12])
          case None => Failure(BadNumber(elems[12]))
          case Some(hap) => Success(Some(Row(elems[0], elems[1], credits, Round(hap, elems[4], elems[5], elems[9]))))
  }

  /** The kept rows of the data lines in order, or the error of the first line that raises. */
  function ParseRows(lines: seq<string>, filter: Filter): Result<seq<Row>, Error>
  {
    if lines == [] then
      Success([])
    else
      match ParseRows(lines[..|lines| - 1], filter)
      case Failure(e) => Failure(e)
      case Success(rows) =>
        match ParseRow(lines[|lines| - 1], filter)
        case Failure(e) => Failure(e)
        case Success(None) => Success(rows)
        case Success(Some(row)) => Success(rows + [row])
  }

  /** A line that raises ends the read, whatever follows it. */
  lemma {:induction false} ParseFailureSticks(a: seq<string>, b: seq<string>, filter: Filter)
    requires ParseRows(a, filter).Failure?
    ensures ParseRows(a + b, filter) == ParseRows(a, filter)
  {
    if b == [] {
      assert a + b == a;
    } else {
      var n := |b| - 1;
      assert (a + b)[..|a + b| - 1] == a + b[..n];
      ParseFailureSticks(a, b[..n], filter);
    }
  }

  /** Every kept row is a course the filter keeps. */
  lemma {:induction false} ParsedRowsKept(lines: seq<string>, filter: Filter)
    requires ParseRows(lines, filter).Success?
    ensures forall row :: row in ParseRows(lines, filter).value ==>
      IsAKeeper(row.code, filter.explicit, filter.restriction, filter.exclusion)
  {
    if lines != [] {
      ParsedRowsKept(lines[..|lines| - 1], filter);
    }
  }

  /** The grouping of rows by course code, as the dict of courses is filled. */
  function Group(rows: seq<Row>): map<string, Course>
  {
    if rows == [] then
      map[]
    else
      var acc := Group(rows[..|rows| - 1]);
      var row := rows[|rows| - 1];
      if row.code !in acc then acc[row.code := Course(row.name, row.credits, [row.round])]
      else acc[row.code := acc[row.code].(rounds := acc[row.code].rounds + [row.round])]
  }

  /** The rounds of the rows with code `code`, in order. */
  function RoundsOf(rows: seq<Row>, code: string): seq<Round>
  {
    if rows == [] then []
    else RoundsOf(rows[..|rows| - 1], code) + (if rows[|rows| - 1].code == code then [rows[|rows| - 1].round] else [])
  }

  /** Without a row of the code there is no round of it. */
  lemma {:induction false} NoRoundsOf(rows: seq<Row>, code: string)
    requires forall j :: 0 <= j < |rows| ==> rows[j].code != code
    ensures RoundsOf(rows, code) == []
  {
    if rows != [] {
      var n := |rows| - 1;
      assert forall j :: 0 <= j < n ==> rows[..n][j] == rows[j];
      NoRoundsOf(rows[..n], code);
    }
  }

  /**
   * A course is in the grouping exactly when some row has its code; its
   * rounds are all those rows' rounds in order, and its name and credits come
   * from the first of them.
   */
  lemma {:induction false} GroupSpec(rows: seq<Row>, code: string)
    ensures code in Group(rows) <==> exists i :: 0 <= i < |rows| && rows[i].code == code
    ensures code in Group(rows) ==> Group(rows)[code].rounds == RoundsOf(rows, code)
    ensures code in Group(rows) ==>
      exists i :: && 0 <= i < |rows| && rows[i].code == code
                  && Group(rows)[code].name == rows[i].name && Group(rows)[code].credits == rows[i].credits
                  && forall j :: 0 <= j < i ==> rows[j].code != code
  {
    if rows != [] {
      var n := |rows| - 1;
      var init := rows[..n];
      GroupSpec(init, code);
      assert forall i :: 0 <= i < n ==> init[i] == rows[i];
      if code in Group(init) {
        var i :| && 0 <= i < n && init[i].code == code
                 && Group(init)[code].name == init[i].name && Group(init)[code].credits == init[i].credits
                 && forall j :: 0 <= j < i ==> init[j].code != code;
        assert rows[i].code == code;
      } else if rows[n].code == code {
        assert forall j :: 0 <= j < n ==> init[j].code != code;
        NoRoundsOf(init, code);
      }
    }
  }

  /** Line `k`, split into `tokens`, is the header or updates the metadata of the lines before it by its two fields. */
  lemma MetadataStep(lines: seq<string>, k: nat, tokens: seq<string>)
    requires k < |lines| && tokens == Tokens(lines[k])
    ensures IsHeader(lines[k]) <==> |tokens| > 1 && tokens[0] == "Kurskod"
    ensures Assigned(MetaEntries(lines[..k + 1])) ==
        if |tokens| > 1 then Assigned(MetaEntries(lines[..k]))[StripQuotes(tokens[0]) := StripQuotes(tokens[1])]
        else Assigned(MetaEntries(lines[..k]))
  {
    assert MetaEntries(lines[..k + 1]) == MetaEntries(lines[..k]) + [MetaEntry(lines[k])];
    AssignedStep(MetaEntries(lines[..k]), MetaEntry(lines[k]));
  }

  /**
   * The metadata loop of `read_production`: assigns the two fields of every
   * line with at least two, up to the header line, where it stops. Returns
   * the metadata and where it stopped.
   */
  method ReadMetadata(lines: seq<string>) returns (metadata: map<string, string>, stop: nat)
    ensures stop == HeaderIndex(lines)
    ensures metadata == Assigned(MetaEntries(lines[..stop]))
  {
    metadata := map[];
    stop := 0;
    while stop < |lines|
      invariant 0 <= stop <= |lines|
      invariant forall j :: 0 <= j < stop ==> !IsHeader(lines[j])
      invariant metadata == Assigned(MetaEntries(lines[..stop]))
    {
      var tokens := Tokens(lines[stop]);
      MetadataStep(lines, stop, tokens);
      if |tokens| > 1 {
        if tokens[0] == "Kurskod" {
          break;
        }
        metadata := metadata[StripQuotes(tokens[0]) := StripQuotes(tokens[1])];
      }
      stop := stop + 1;
    }
    HeaderIndexAt(lines, stop);
  }

  /** The rows of the first `k + 1` data lines extend those of the first `k` by line `k`'s row. */
  lemma ParseRowsStep(data: seq<string>, k: nat, filter: Filter)
    requires k < |data| && ParseRows(data[..k], filter).Success?
    ensures var rows := ParseRows(data[..k], filter).value;
      ParseRows(data[..k + 1], filter) == match ParseRow(data[k], filter)
        case Failure(e) => Failure(e)
        case Success(None) => Success(rows)
        case Success(Some(row)) => Success(rows + [row])
  {
    assert data[..k + 1][..k] == data[..k];
  }

  /** A failing line `k` after `k` good ones is the error of the whole data. */
  lemma ParseFailureAt(data: seq<string>, k: nat, filter: Filter)
    requires k < |data| && ParseRows(data[..k + 1], filter).Failure?
    ensures ParseRows(data, filter) == ParseRows(data[..k + 1], filter)
  {
    ParseFailureSticks(data[..k + 1], data[k + 1..], filter);
    assert data[..k + 1] + data[k + 1..] == data;
  }

  /** Grouping one more row: a new code starts a course, a known one gains a round. */
  lemma GroupAppend(rows: seq<Row>, row: Row)
    ensures var acc := Group(rows);
      Group(rows + [row]) ==
        if row.code !in acc then acc[row.code := Course(row.name, row.credits, [row.round])]
        else acc[row.code := acc[row.code].(rounds := acc[row.code].rounds + [row.round])]
  {
    assert (rows + [row])[..|rows|] == rows;
  }

  /** The data loop of `read_production`: the kept rows grouped by course, or the first error. */
  method ReadCourses(data: seq<string>, filter: Filter) returns (r: Result<map<string, Course>, Error>)
    ensures ParseRows(data, filter).Failure? ==> r == Failure(ParseRows(data, filter).error)
    ensures ParseRows(data, filter).Success? ==> r == Success(Group(ParseRows(data, filter).value))
  {
    var result: map<string, Course> := map[];
    ghost var rows: seq<Row> := [];
    var k := 0;
    while k < |data|
      invariant 0 <= k <= |data|
      invariant ParseRows(data[..k], filter) == Success(rows)
      invariant result == Group(rows)
    {
      ParseRowsStep(data, k, filter);
      var parsed := ParseRow(data[k], filter);
      if parsed.Failure? {
        ParseFailureAt(data, k, filter);
        return Failure(parsed.error);
      }
      if parsed.value.Some? {
        var row := parsed.value.value;
        GroupAppend(rows, row);
        if row.code !in result {
          result := result[row.code := Course(row.name, row.credits, [row.round])];
        } else {
          result := result[row.code := result[row.code].(rounds := result[row.code].rounds + [row.round])];
        }
        rows := rows + [row];
      }
      k := k + 1;
    }
    assert data[..k] == data;
    r := Success(result);
  }

  /**
   * `read_production`: the metadata before the header line and the kept
   * courses of the lines after it.
   */
  method ReadProduction(lines: seq<string>, filter: Filter) returns (r: Result<(map<string, Course>, map<string, string>), Error>)
    ensures lines == [] ==> r == Failure(NoLines)
    ensures lines != [] && ParseRows(lines[DataStart(lines)..], filter).Failure? ==>
              r == Failure(ParseRows(lines[DataStart(lines)..], filter).error)
    ensures lines != [] && ParseRows(lines[DataStart(lines)..], filter).Success? ==>
              r == Success((Group(ParseRows(lines[DataStart(lines)..], filter).value),
                            Assigned(MetaEntries(lines[..HeaderIndex(lines)]))))
  {
    var metadata, stop := ReadMetadata(lines);
    if lines == [] {
      return Failure(NoLines);
    }
    var lineNo := if stop < |lines| then stop else |lines| - 1;
    var courses := ReadCourses(lines[lineNo + 1..], filter);
    match courses {
      case Failure(e) => r := Failure(e);
      case Success(c) => r := Success((c, metadata));
    }
  }

  /** The term labels of the rounds' start dates, or the error of the first date `year_semester` rejects. */
  function RoundTerms(rounds: seq<Round>): (r: Result<seq<string>, Production.Error>)
    ensures r.Success? ==> |r.value| == |rounds|
  {
    if rounds == [] then
      Success([])
    else
      var n := |rounds| - 1;
      match RoundTerms(rounds[..n])
      case Failure(e) => Failure(e)
      case Success(terms) =>
        match YearSemester(rounds[n].startDate)
        case Failure(e) => Failure(e)
        case Success(term) => Success(terms + [term])
  }

  /** The labels are those of each round; a failure is that of the first round whose date is rejected. */
  lemma {:induction false} RoundTermsSpec(rounds: seq<Round>)
    ensures var r := RoundTerms(rounds);
      r.Success? ==> forall j :: 0 <= j < |rounds| ==> YearSemester(rounds[j].startDate) == Success(r.value[j])
    ensures var r := RoundTerms(rounds);
      r.Failure? ==>
        exists j :: && 0 <= j < |rounds| && YearSemester(rounds[j].startDate) == Failure(r.error)
                    && forall i :: 0 <= i < j ==> YearSemester(rounds[i].startDate).Success?
  {
    if rounds != [] {
      var n := |rounds| - 1;
      RoundTermsSpec(rounds[..n]);
      assert forall j :: 0 <= j < n ==> rounds[..n][j] == rounds[j];
      var r := RoundTerms(rounds);
      if RoundTerms(rounds[..n]).Failure? {
        var j :| && 0 <= j < n && YearSemester(rounds[..n][j].startDate) == Failure(r.error)
                 && forall i :: 0 <= i < j ==> YearSemester(rounds[..n][i].startDate).Success?;
        assert YearSemester(rounds[j].startDate) == Failure(r.error);
      } else if YearSemester(rounds[n].startDate).Failure? {
        assert YearSemester(rounds[n].startDate) == Failure(r.error);
      }
    }
  }

  /** The HÅP of the rounds whose start date falls in term `term`. */
  function HapIn(rounds: seq<Round>, term: string): real
  {
    if rounds == [] then 0.0
    else
      var last := rounds[|rounds| - 1];
      HapIn(rounds[..|rounds| - 1], term) + (if YearSemester(last.startDate) == Success(term) then last.hap else 0.0)
  }

  /** A term no round starts in gets nothing. */
  lemma {:induction false} HapInNone(rounds: seq<Round>, term: string)
    requires forall j :: 0 <= j < |rounds| ==> YearSemester(rounds[j].startDate) != Success(term)
    ensures HapIn(rounds, term) == 0.0
  {
    if rounds != [] {
      var n := |rounds| - 1;
      assert forall j :: 0 <= j < n ==> rounds[..n][j] == rounds[j];
      HapInNone(rounds[..n], term);
    }
  }

  /** `production.get(term, 0.0)` */
  function Get(production: map<string, real>, term: string): (hap: real)
    ensures term in production ==> hap == production[term]
    ensures term !in production ==> hap == 0.0
  {
    if term in production then production[term] else 0.0
  }

  /** One more round adds its HÅP to the term its start date falls in, and to no other. */
  lemma HapInStep(rounds: seq<Round>, k: nat, term: string)
    requires k < |rounds|
    ensures HapIn(rounds[..k + 1], term)
      == HapIn(rounds[..k], term) + (if YearSemester(rounds[k].startDate) == Success(term) then rounds[k].hap else 0.0)
  {
    SplitAt(rounds, k);
  }

  /** `list(map(lambda sem: production.get(sem, 0.0), semesters))` */
  function Bars(production: map<string, real>, semesters: seq<string>): (haps: seq<real>)
    ensures |haps| == |semesters|
    ensures forall i :: 0 <= i < |semesters| ==> haps[i] == Get(production, semesters[i])
  {
    seq(|semesters|, i requires 0 <= i < |semesters| => Get(production, semesters[i]))
  }

  /**
   * The bucketing loop of `make_bar_diagrams` for one course: the HÅP of each
   * term `generate_semesters` lists, as written (years without zero padding),
   * 0.0 for a term without rounds, or the error of the first round whose start
   * date `year_semester` rejects.
   */
  method SemesterProduction(rounds: seq<Round>, startYear: int, endYear: int) returns (r: Result<seq<real>, Production.Error>)
    ensures RoundTerms(rounds).Failure? ==> r == Failure(RoundTerms(rounds).error)
    ensures RoundTerms(rounds).Success? ==>
      && r.Success? && |r.value| == |GenerateSemestersAsWritten(startYear, endYear)|
      && forall i :: 0 <= i < |r.value| ==> r.value[i] == HapIn(rounds, GenerateSemestersAsWritten(startYear, endYear)[i])
  {
    var production: map<string, real> := map[];
    var k := 0;
    while k < |rounds|
      invariant 0 <= k <= |rounds|
      invariant RoundTerms(rounds[..k]).Success?
      invariant forall term :: Get(production, term) == HapIn(rounds[..k], term)
    {
      var semester := YearSemester(rounds[k].startDate);
      if semester.Failure? {
        RoundTermsFailure(rounds, k);
        return Failure(semester.error);
      }
      RoundTermsAccepts(rounds, k);
      ghost var before := production;
      if semester.value in production {
        production := production[semester.value := production[semester.value] + rounds[k].hap];
      } else {
        production := production[semester.value := rounds[k].hap];
      }
      forall term
        ensures Get(production, term) == HapIn(rounds[..k + 1], term)
      {
        HapInStep(rounds, k, term);
      }
      k := k + 1;
    }
    assert rounds[..k] == rounds;
    var semesters := GenerateSemestersAsWritten(startYear, endYear);
    r := Success(Bars(production, semesters));
  }

  /**
   * As written, a round starting in a year ending in 00-09 shows in no bar:
   * every bar is the HÅP of a term other than the round's own.
   */
  lemma AsWrittenBarsMissRound(rounds: seq<Round>, k: nat, d: Date, startYear: int, endYear: int)
    requires Valid(d) && k < |rounds| && rounds[k].startDate == FormatIsoDate(d) && d.year % 100 < 10
    ensures YearSemester(rounds[k].startDate).Success?
    ensures forall i :: 0 <= i < |GenerateSemestersAsWritten(startYear, endYear)| ==>
      GenerateSemestersAsWritten(startYear, endYear)[i] != YearSemester(rounds[k].startDate).value
  {
    AsWrittenMissesLeadingZeroYears(d, startYear, endYear);
  }

  /**
   * The discrepancy at the level of the chart: a course with one round
   * starting in a year ending in 00-09, inside the chart's years. As written
   * every bar is 0.0; with padded years the bar of the round's term is its
   * HÅP. A round of 1.0 HÅP starting 2005-03-01 with years 5 to 5 is one.
   */
  lemma AsWrittenBarsCounterexample(rounds: seq<Round>, d: Date, startYear: int, endYear: int)
    requires Valid(d) && d.year % 100 < 10 && startYear <= d.year % 100 <= endYear
    requires |rounds| == 1 && rounds[0].startDate == FormatIsoDate(d)
    ensures forall i :: 0 <= i < |GenerateSemestersAsWritten(startYear, endYear)| ==>
      HapIn(rounds, GenerateSemestersAsWritten(startYear, endYear)[i]) == 0.0
    ensures var i := 3 * (d.year % 100 - startYear) + TermIndex(d.month);
      i < |GenerateSemesters(startYear, endYear)| && HapIn(rounds, GenerateSemesters(startYear, endYear)[i]) == rounds[0].hap
  {
    AsWrittenBarsMissRound(rounds, 0, d, startYear, endYear);
    var sems := GenerateSemestersAsWritten(startYear, endYear);
    forall i | 0 <= i < |sems|
      ensures HapIn(rounds, sems[i]) == 0.0
    {
      HapInSingle(rounds, sems[i]);
    }
    GeneratedCoversDates(d, startYear, endYear);
    HapInSingle(rounds, YearSemester(rounds[0].startDate).value);
  }

  /** The total of one round's term is its HÅP; every other term gets 0.0. */
  lemma HapInSingle(rounds: seq<Round>, term: string)
    requires |rounds| == 1
    ensures HapIn(rounds, term) == if YearSemester(rounds[0].startDate) == Success(term) then rounds[0].hap else 0.0
  {
    assert rounds[..0] == [];
  }

  /** With no negative HÅP, a term's total is at least the HÅP of each round starting in it. */
  lemma {:induction false} HapInCountsRound(rounds: seq<Round>, k: nat, term: string)
    requires k < |rounds| && YearSemester(rounds[k].startDate) == Success(term)
    requires forall j :: 0 <= j < |rounds| ==> rounds[j].hap >= 0.0
    ensures HapIn(rounds, term) >= rounds[k].hap
  {
    var n := |rounds| - 1;
    HapInStep(rounds, n, term);
    assert rounds[..n + 1] == rounds;
    HapInNonNegative(rounds[..n], term);
    if k < n {
      HapInCountsRound(rounds[..n], k, term);
    }
  }

  /** With no negative HÅP, no term's total is negative. */
  lemma {:induction false} HapInNonNegative(rounds: seq<Round>, term: string)
    requires forall j :: 0 <= j < |rounds| ==> rounds[j].hap >= 0.0
    ensures HapIn(rounds, term) >= 0.0
  {
    if rounds != [] {
      HapInNonNegative(rounds[..|rounds| - 1], term);
    }
  }

  /**
   * With padded years (the corrected `generate_semesters`), every round whose
   * ISO start date lies in the chart's years shows in a bar: with no negative
   * HÅP, the bar of term `TermIndex(month)` of its year is at least its HÅP.
   */
  lemma PaddedBarsCarryRounds(rounds: seq<Round>, k: nat, d: Date, startYear: int, endYear: int)
    requires Valid(d) && k < |rounds| && rounds[k].startDate == FormatIsoDate(d)
    requires startYear <= d.year % 100 <= endYear
    requires forall j :: 0 <= j < |rounds| ==> rounds[j].hap >= 0.0
    ensures var i := 3 * (d.year % 100 - startYear) + TermIndex(d.month);
      && i < |GenerateSemesters(startYear, endYear)|
      && HapIn(rounds, GenerateSemesters(startYear, endYear)[i]) >= rounds[k].hap
  {
    GeneratedCoversDates(d, startYear, endYear);
    HapInCountsRound(rounds, k, YearSemester(FormatIsoDate(d)).value);
  }

  /** A round whose date is rejected after `k` accepted ones is the error of all rounds. */
  lemma RoundTermsFailure(rounds: seq<Round>, k: nat)
    requires k < |rounds| && RoundTerms(rounds[..k]).Success? && YearSemester(rounds[k].startDate).Failure?
    ensures RoundTerms(rounds) == Failure(YearSemester(rounds[k].startDate).error)
  {
    SplitAt(rounds, k);
    RoundTermsRejects(rounds[..k], rounds[k]);
    RoundTermsSticks(rounds[..k + 1], rounds[k + 1..]);
  }

  /** A rejected date after accepted ones is the error of the labelling. */
  lemma RoundTermsRejects(accepted: seq<Round>, round: Round)
    requires RoundTerms(accepted).Success? && YearSemester(round.startDate).Failure?
    ensures RoundTerms(accepted + [round]) == Failure(YearSemester(round.startDate).error)
  {
    SnocPrefix(accepted, round);
  }

  /** An accepted date extends the labels by its term. */
  lemma RoundTermsAccepts(rounds: seq<Round>, k: nat)
    requires k < |rounds| && RoundTerms(rounds[..k]).Success? && YearSemester(rounds[k].startDate).Success?
    ensures RoundTerms(rounds[..k + 1])
      == Success(RoundTerms(rounds[..k]).value + [YearSemester(rounds[k].startDate).value])
  {
    SplitAt(rounds, k);
  }

  /** A rejected date ends the labelling, whatever follows it. */
  lemma {:induction false} RoundTermsSticks(a: seq<Round>, b: seq<Round>)
    requires RoundTerms(a).Failure?
    ensures RoundTerms(a + b) == RoundTerms(a)
  {
    if b == [] {
      assert a + b == a;
    } else {
      var n := |b| - 1;
      assert (a + b)[..|a + b| - 1] == a + b[..n];
      RoundTermsSticks(a, b[..n]);
    }
  }
}
