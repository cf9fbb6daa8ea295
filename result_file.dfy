/**
 * `read_course_results`: the course-result exports. After an 8-line header
 * every line is one module result; a per-row rule decides what it adds to the
 * personnummer -> course -> module -> credits table, and the table is filled
 * in place, row after row, over all files.
 */
module ResultFile {
  import opened Wrappers
  import opened Text
  import opened Numbers
  import opened Dates
  import opened Seqs

  type Credits = map<string, real>           // module code -> hp
  type CourseResults = map<string, Credits>  // course code -> its modules
  type Results = map<string, CourseResults>  // personnummer -> courses

  /** The exceptions that abort the whole read. */
  datatype Error =
    | MissingField(name: string)  // KeyError: the row is too short for a field the rule needs
    | BadDate(text: string)       // ValueError from `date.fromisoformat`
    | BadNumber(text: string)     // ValueError from `float`

  /** What one line adds to the table. */
  datatype Row =
    | Skipped                                                        // fewer than five fields
    | Late(pnr: string)                                              // dated after the cutoff
    | NoCredit(pnr: string, course: string)                          // trivial module code or failing grade
    | Credit(pnr: string, course: string, modCode: string, hp: real)  // a module result

  /** Lines at the top of every file that are never read as results. */
  const HeaderLines: nat := 8

  // Field positions (0-based) in a result row.
  const PnrField: nat := 0
  const CourseField: nat := 3
  const ModuleField: nat := 7
  const CreditField: nat := 9
  const GradeField: nat := 10
  const DateField: nat := 11

  /** `line.strip().split(';')` */
  function Fields(line: string): seq<string>
  {
    Split(Strip(line, Whitespace), ';')
  }

  /** The quote-stripped field `i`, as the source stores it in its per-line dict. */
  function Field(data: seq<string>, i: nat): string
    requires i < |data|
  {
    StripQuotes(data[i])
  }

  /** The row has no date field, or a date on or before the cutoff. */
  predicate DateKept(data: seq<string>, cutoff: Date)
  {
    |data| <= DateField
    || (ParseIsoDate(Field(data, DateField)).Some? && !IsAfter(ParseIsoDate(Field(data, DateField)).value, cutoff))
  }

  /** The failing grades. */
  predicate Failing(grade: string)
  {
    grade == "F" || grade == "FX"
  }

  /**
   * The per-row rule of `read_course_results` on the fields of one line:
   * short rows are skipped; a date after the cutoff keeps only the student;
   * a module code of at most one character or a failing grade keeps only the
   * course; anything else records the module credits.
   */
  function ClassifyFields(data: seq<string>, cutoff: Date): (r: Result<Row, Error>)
    ensures r == Success(Skipped) <==> |data| < 5
    ensures |data| > DateField && ParseIsoDate(Field(data, DateField)).Some?
            && IsAfter(ParseIsoDate(Field(data, DateField)).value, cutoff)
            ==> r == Success(Late(Field(data, PnrField)))
    ensures r.Success? && (r.value.NoCredit? || r.value.Credit?) ==>
              && |data| > ModuleField && DateKept(data, cutoff)
              && r.value.pnr == Field(data, PnrField) && r.value.course == Field(data, CourseField)
    ensures r.Success? && r.value.Credit? ==>
              && |data| > GradeField && |Field(data, ModuleField)| > 1 && !Failing(Field(data, GradeField))
              && r.value.modCode == Field(data, ModuleField)
              && MakeFloat(Field(data, CreditField)) == Some(r.value.hp)
    ensures |data| > ModuleField && DateKept(data, cutoff) && |Field(data, ModuleField)| <= 1
            ==> r == Success(NoCredit(Field(data, PnrField), Field(data, CourseField)))
    ensures |data| > GradeField && DateKept(data, cutoff) && |Field(data, ModuleField)| > 1 && Failing(Field(data, GradeField))
            ==> r == Success(NoCredit(Field(data, PnrField), Field(data, CourseField)))
    ensures |data| > GradeField && DateKept(data, cutoff) && |Field(data, ModuleField)| > 1 && !Failing(Field(data, GradeField))
            && MakeFloat(Field(data, CreditField)).Some?
            ==> r == Success(Credit(Field(data, PnrField), Field(data, CourseField), Field(data, ModuleField),
                                    MakeFloat(Field(data, CreditField)).value))
  {
    if |data| < 5 then
      Success(Skipped)
    else
      var pnr := Field(data, PnrField);
      var date := if |data| > DateField then Some(ParseIsoDate(Field(data, DateField))) else None;
      if date == Some(None) then
        Failure(BadDate(Field(data, DateField)))
      else if date.Some? && IsAfter(date.value.value, cutoff) then
        Success(Late(pnr))
      else if |data| <= ModuleField then
        Failure(MissingField("Modulkod"))
      else
        var course := Field(data, CourseField);
        var modCode := Field(data, ModuleField);
        if |modCode| <= 1 then
          Success(NoCredit(pnr, course))
        else if |data| <= GradeField then
          Failure(MissingField("Betyg"))
        else if Failing(Field(data, GradeField)) then
          Success(NoCredit(pnr, course))
        else
          match MakeFloat(Field(data, CreditField))
          case None => Failure(BadNumber(Field(data, CreditField)))
          case Some(hp) => Success(Credit(pnr, course, modCode, hp))
  }

  /**
   * A row aborts the read exactly when Python raises on it: an unparsable
   * date, a row of 5 to 7 fields that is not late, a non-trivial module code
   * without a grade field, or unparsable credits on a passing grade.
   */
  lemma ClassifyFieldsFails(data: seq<string>, cutoff: Date)
    ensures ClassifyFields(data, cutoff).Failure? <==>
      && |data| >= 5
      && (|| (|data| > DateField && ParseIsoDate(Field(data, DateField)).None?)
          || (&& DateKept(data, cutoff)
              && (|| |data| <= ModuleField
                  || (&& |Field(data, ModuleField)| > 1
                      && (|| |data| <= GradeField
                          || (!Failing(Field(data, GradeField)) && MakeFloat(Field(data, CreditField)).None?))))))
  {
  }

  function ClassifyRow(line: string, cutoff: Date): Result<Row, Error>
  {
    ClassifyFields(Fields(line), cutoff)
  }

  /** The rows of all lines, or the error of the first line that raises. */
  function ClassifyAll(lines: seq<string>, cutoff: Date): (r: Result<seq<Row>, Error>)
    ensures r.Success? ==> |r.value| == |lines|
  {
    if lines == [] then
      Success([])
    else
      var n := |lines| - 1;
      match ClassifyAll(lines[..n], cutoff)
      case Failure(e) => Failure(e)
      case Success(rows) =>
        match ClassifyRow(lines[n], cutoff)
        case Failure(e) => Failure(e)
        case Success(row) => Success(rows + [row])
  }

  /** Each row is its line's classification; a failure is that of the first line that raises. */
  lemma {:induction false} ClassifyAllSpec(lines: seq<string>, cutoff: Date)
    ensures var r := ClassifyAll(lines, cutoff);
      r.Success? ==> forall i :: 0 <= i < |lines| ==> ClassifyRow(lines[i], cutoff) == Success(r.value[i])
    ensures var r := ClassifyAll(lines, cutoff);
      r.Failure? ==>
        exists i :: && 0 <= i < |lines| && ClassifyRow(lines[i], cutoff) == Failure(r.error)
                    && forall j :: 0 <= j < i ==> ClassifyRow(lines[j], cutoff).Success?
  {
    if lines != [] {
      var n := |lines| - 1;
      ClassifyAllSpec(lines[..n], cutoff);
      assert forall j :: 0 <= j < n ==> lines[..n][j] == lines[j];
      var r := ClassifyAll(lines, cutoff);
      if ClassifyAll(lines[..n], cutoff).Failure? {
        var i :| && 0 <= i < n && ClassifyRow(lines[..n][i], cutoff) == Failure(r.error)
                 && forall j :: 0 <= j < i ==> ClassifyRow(lines[..n][j], cutoff).Success?;
        assert ClassifyRow(lines[i], cutoff) == Failure(r.error);
      } else if ClassifyRow(lines[n], cutoff).Failure? {
        assert ClassifyRow(lines[n], cutoff) == Failure(r.error);
      }
    }
  }

  /** `lines[n:]` */
  function Drop(lines: seq<string>, n: nat): seq<string>
  {
    if |lines| <= n then [] else lines[n..]
  }

  /** The lines read as results: every file without its header, files in order. */
  function DataLines(files: seq<seq<string>>): seq<string>
  {
    if files == [] then [] else DataLines(files[..|files| - 1]) + Drop(files[|files| - 1], HeaderLines)
  }

  lemma {:induction false} DataLinesAppend(a: seq<seq<string>>, b: seq<seq<string>>)
    ensures DataLines(a + b) == DataLines(a) + DataLines(b)
  {
    if b == [] {
      assert a + b == a;
    } else {
      var n := |b| - 1;
      assert (a + b)[..|a + b| - 1] == a + b[..n];
      DataLinesAppend(a, b[..n]);
    }
  }

  /** A line that raises ends the read, whatever follows it. */
  lemma {:induction false} FailureSticks(a: seq<string>, b: seq<string>, cutoff: Date)
    requires ClassifyAll(a, cutoff).Failure?
    ensures ClassifyAll(a + b, cutoff) == ClassifyAll(a, cutoff)
  {
    if b != [] {
      var n := |b| - 1;
      assert (a + b)[..|a + b| - 1] == a + b[..n];
      FailureSticks(a, b[..n], cutoff);
    } else {
      assert a + b == a;
    }
  }

  /** `result.setdefault(pnr, {})` */
  function WithStudent(acc: Results, pnr: string): (r: Results)
    ensures pnr in r
  {
    if pnr in acc then acc else acc[pnr := map[]]
  }

  /** `result[pnr].setdefault(course, {})`, after the student's entry */
  function WithCourse(acc: Results, pnr: string, course: string): (r: Results)
    ensures pnr in r && course in r[pnr]
  {
    var a := WithStudent(acc, pnr);
    if course in a[pnr] then a else a[pnr := a[pnr][course := map[]]]
  }

  /** The effect of one row on the table. */
  function Step(acc: Results, row: Row): (r: Results)
    ensures row.Skipped? ==> r == acc
    ensures !row.Skipped? ==> row.pnr in r
    ensures row.Credit? ==> row.course in r[row.pnr] && row.modCode in r[row.pnr][row.course] && r[row.pnr][row.course][row.modCode] == row.hp
  {
    match row
    case Skipped => acc
    case Late(pnr) => WithStudent(acc, pnr)
    case NoCredit(pnr, course) => WithCourse(acc, pnr, course)
    case Credit(pnr, course, modCode, hp) =>
      var a := WithCourse(acc, pnr, course);
      a[pnr := a[pnr][course := a[pnr][course][modCode := hp]]]
  }

  /** The table after all rows, applied in order. */
  ghost function Accumulate(rows: seq<Row>): Results
  {
    if rows == [] then map[] else Step(Accumulate(rows[..|rows| - 1]), rows[|rows| - 1])
  }

  /** The row mentions student `p`. */
  predicate NamesStudent(row: Row, p: string)
  {
    !row.Skipped? && row.pnr == p
  }

  /** The row mentions course `c` of student `p`. */
  predicate NamesCourse(row: Row, p: string, c: string)
  {
    (row.NoCredit? || row.Credit?) && row.pnr == p && row.course == c
  }

  /** The row records module `m` of course `c` of student `p`. */
  predicate NamesModule(row: Row, p: string, c: string, m: string)
  {
    row.Credit? && row.pnr == p && row.course == c && row.modCode == m
  }

  /** One row adds course `c` to student `p`'s table exactly when it names that course. */
  lemma StepCourses(acc: Results, row: Row, p: string, c: string)
    ensures p in Step(acc, row) && c in Step(acc, row)[p]
            <==> (p in acc && c in acc[p]) || NamesCourse(row, p, c)
  {
  }

  /** One row adds module `m` to course `c` of student `p` exactly when it records that module. */
  lemma StepModules(acc: Results, row: Row, p: string, c: string, m: string)
    ensures p in Step(acc, row) && c in Step(acc, row)[p] && m in Step(acc, row)[p][c]
            <==> (p in acc && c in acc[p] && m in acc[p][c]) || NamesModule(row, p, c, m)
  {
  }

  /** Every student some row mentions is in the table, and no other. */
  lemma {:induction false} AccumulateStudents(rows: seq<Row>, p: string)
    ensures p in Accumulate(rows) <==> exists i :: 0 <= i < |rows| && NamesStudent(rows[i], p)
  {
    if rows != [] {
      var n := |rows| - 1;
      AccumulateStudents(rows[..n], p);
      assert forall i :: 0 <= i < n ==> rows[..n][i] == rows[i];
      if p in Accumulate(rows[..n]) {
        var i :| 0 <= i < n && NamesStudent(rows[..n][i], p);
        assert NamesStudent(rows[i], p);
      }
    }
  }

  /** Every course some row mentions (short of a late row) is in its student's table, and no other. */
  lemma {:induction false} AccumulateCourses(rows: seq<Row>, p: string, c: string)
    ensures p in Accumulate(rows) && c in Accumulate(rows)[p]
            <==> exists i :: 0 <= i < |rows| && NamesCourse(rows[i], p, c)
  {
    if rows != [] {
      var n := |rows| - 1;
      AccumulateCourses(rows[..n], p, c);
      assert forall i :: 0 <= i < n ==> rows[..n][i] == rows[i];
      var prev := Accumulate(rows[..n]);
      StepCourses(prev, rows[n], p, c);
      if p in prev && c in prev[p] {
        var i :| 0 <= i < n && NamesCourse(rows[..n][i], p, c);
        assert NamesCourse(rows[i], p, c);
      }
    }
  }

  /** Every module some credit row records is in the table, and no other. */
  lemma {:induction false} AccumulateModules(rows: seq<Row>, p: string, c: string, m: string)
    ensures p in Accumulate(rows) && c in Accumulate(rows)[p] && m in Accumulate(rows)[p][c]
            <==> exists i :: 0 <= i < |rows| && NamesModule(rows[i], p, c, m)
  {
    if rows != [] {
      var n := |rows| - 1;
      AccumulateModules(rows[..n], p, c, m);
      assert forall i :: 0 <= i < n ==> rows[..n][i] == rows[i];
      var prev := Accumulate(rows[..n]);
      StepModules(prev, rows[n], p, c, m);
      if p in prev && c in prev[p] && m in prev[p][c] {
        var i :| 0 <= i < n && NamesModule(rows[..n][i], p, c, m);
        assert NamesModule(rows[i], p, c, m);
      }
    }
  }

  /** A module's credits are those of the last row that records it. */
  lemma {:induction false} AccumulateLastWins(rows: seq<Row>, i: nat, p: string, c: string, m: string)
    requires i < |rows| && NamesModule(rows[i], p, c, m)
    requires forall j :: i < j < |rows| ==> !NamesModule(rows[j], p, c, m)
    ensures p in Accumulate(rows) && c in Accumulate(rows)[p] && m in Accumulate(rows)[p][c]
    ensures Accumulate(rows)[p][c][m] == rows[i].hp
  {
    var n := |rows| - 1;
    if i < n {
      AccumulateLastWins(rows[..n], i, p, c, m);
      assert !NamesModule(rows[n], p, c, m);
    }
  }

  /** The last row recording a module, found from some row that records it. */
  lemma LastNamingModule(rows: seq<Row>, i: nat, p: string, c: string, m: string) returns (j: nat)
    requires i < |rows| && NamesModule(rows[i], p, c, m)
    ensures i <= j < |rows| && NamesModule(rows[j], p, c, m)
    ensures forall k :: j < k < |rows| ==> !NamesModule(rows[k], p, c, m)
  {
    j := |rows| - 1;
    while !NamesModule(rows[j], p, c, m)
      invariant i <= j < |rows|
      invariant forall k :: j < k < |rows| ==> !NamesModule(rows[k], p, c, m)
      decreases j
    {
      j := j - 1;
    }
  }

  /**
   * `line` gives student `p` credits `hp` for module `m` of course `c`: it
   * carries a grade, is not dated after the cutoff, has a module code longer
   * than one character and a passing grade, and its credits parse to `hp`.
   */
  predicate CreditLine(line: string, cutoff: Date, p: string, c: string, m: string, hp: real)
  {
    var data := Fields(line);
    && |data| > GradeField && DateKept(data, cutoff)
    && Field(data, PnrField) == p && Field(data, CourseField) == c && Field(data, ModuleField) == m
    && |m| > 1 && !Failing(Field(data, GradeField))
    && MakeFloat(Field(data, CreditField)) == Some(hp)
  }

  /** Every module credit in a successfully read table comes from a passing line dated on or before the cutoff. */
  lemma TableCreditsComeFromLines(lines: seq<string>, cutoff: Date, p: string, c: string, m: string)
    requires ClassifyAll(lines, cutoff).Success?
    requires var t := Accumulate(ClassifyAll(lines, cutoff).value); p in t && c in t[p] && m in t[p][c]
    ensures exists i :: 0 <= i < |lines|
                        && CreditLine(lines[i], cutoff, p, c, m, Accumulate(ClassifyAll(lines, cutoff).value)[p][c][m])
  {
    var rows := ClassifyAll(lines, cutoff).value;
    AccumulateModules(rows, p, c, m);
    var i :| 0 <= i < |rows| && NamesModule(rows[i], p, c, m);
    var j := LastNamingModule(rows, i, p, c, m);
    AccumulateLastWins(rows, j, p, c, m);
    ClassifyAllSpec(lines, cutoff);
    assert ClassifyFields(Fields(lines[j]), cutoff) == Success(rows[j]);
    assert CreditLine(lines[j], cutoff, p, c, m, rows[j].hp);
  }

  /** The in-place update of the table by one row. */
  method ApplyRow(result: Results, row: Row) returns (r: Results)
    ensures r == Step(result, row)
  {
    r := result;
    match row {
      case Skipped =>
      case Late(pnr) =>
        if pnr !in r {
          r := r[pnr := map[]];
        }
      case NoCredit(pnr, course) =>
        if pnr !in r {
          r := r[pnr := map[]];
        }
        if course !in r[pnr] {
          r := r[pnr := r[pnr][course := map[]]];
        }
      case Credit(pnr, course, modCode, hp) =>
        if pnr !in r {
          r := r[pnr := map[]];
        }
        if course !in r[pnr] {
          r := r[pnr := r[pnr][course := map[]]];
        }
        r := r[pnr := r[pnr][course := r[pnr][course][modCode := hp]]];
    }
  }

  /** The data lines of all files, cut just after line `k` of file `f`. */
  lemma DataLinesAt(files: seq<seq<string>>, f: nat, k: nat)
    requires f < |files| && k < |Drop(files[f], HeaderLines)|
    ensures var lines := Drop(files[f], HeaderLines);
      DataLines(files) == (DataLines(files[..f]) + lines[..k] + [lines[k]]) + (lines[k + 1..] + DataLines(files[f + 1..]))
  {
    var lines := Drop(files[f], HeaderLines);
    DataLinesAppend(files[..f], files[f..]);
    DataLinesAppend([files[f]], files[f + 1..]);
    assert files[..f] + files[f..] == files;
    assert [files[f]] + files[f + 1..] == files[f..];
    assert [files[f]][..0] == [];
    assert DataLines([files[f]]) == lines;
    Regroup(DataLines(files[..f]), lines, DataLines(files[f + 1..]), k);
  }

  /** A line of file `f` that raises makes the read of all files raise the same error. */
  lemma FailureInFile(files: seq<seq<string>>, f: nat, done: seq<string>, k: nat, cutoff: Date)
    requires f < |files| && k < |Drop(files[f], HeaderLines)|
    requires done == DataLines(files[..f]) + Drop(files[f], HeaderLines)[..k]
    requires ClassifyAll(done, cutoff).Success?
    requires ClassifyRow(Drop(files[f], HeaderLines)[k], cutoff).Failure?
    ensures ClassifyAll(DataLines(files), cutoff) == Failure(ClassifyRow(Drop(files[f], HeaderLines)[k], cutoff).error)
  {
    var lines := Drop(files[f], HeaderLines);
    var a := done + [lines[k]];
    assert a[..|a| - 1] == done;
    DataLinesAt(files, f, k);
    FailureSticks(a, lines[k + 1..] + DataLines(files[f + 1..]), cutoff);
  }

  /**
   * Reads all files in order; the table is the effect of their classified
   * rows, or the error of the first line that raises.
   */
  method ReadCourseResults(files: seq<seq<string>>, cutoff: Date) returns (r: Result<Results, Error>)
    ensures ClassifyAll(DataLines(files), cutoff).Failure? ==>
              r == Failure(ClassifyAll(DataLines(files), cutoff).error)
    ensures ClassifyAll(DataLines(files), cutoff).Success? ==>
              r == Success(Accumulate(ClassifyAll(DataLines(files), cutoff).value))
  {
    var result: Results := map[];
    ghost var done: seq<string> := [];
    ghost var rows: seq<Row> := [];
    var f := 0;
    while f < |files|
      invariant 0 <= f <= |files|
      invariant done == DataLines(files[..f])
      invariant ClassifyAll(done, cutoff) == Success(rows)
      invariant result == Accumulate(rows)
    {
      var lines := Drop(files[f], HeaderLines);
      var k := 0;
      while k < |lines|
        invariant 0 <= k <= |lines|
        invariant done == DataLines(files[..f]) + lines[..k]
        invariant ClassifyAll(done, cutoff) == Success(rows)
        invariant result == Accumulate(rows)
      {
        var row := ClassifyRow(lines[k], cutoff);
        SnocPrefix(done, lines[k]);
        if row.Failure? {
          FailureInFile(files, f, done, k, cutoff);
          return Failure(row.error);
        }
        result := ApplyRow(result, row.value);
        ExtendSlice(DataLines(files[..f]), lines, k);
        done := done + [lines[k]];
        rows := rows + [row.value];
        k := k + 1;
      }
      assert lines[..k] == lines;
      assert files[..f + 1][..f] == files[..f];
      f := f + 1;
    }
    assert files[..f] == files;
    r := Success(result);
  }
}
