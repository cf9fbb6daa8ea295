/**
 * `read_programstudents`: the registry export. A prelude of metadata lines
 * names the program; every later line with at least five `;`-separated fields
 * is one student.
 */
module StudentFile {
  import opened Wrappers
  import opened Text
  import opened Dicts

  /** A registry record, the fields the source stores as Förnamn, Efternamn, Programkod and Program. */
  datatype Student = Student(firstName: string, lastName: string, programCode: string, program: string)

  datatype Error =
    | NoProgramWord  // the program field of a matching prelude line is blank: `split()[0]` raises IndexError
    | NoProgramLine  // no prelude line names the program: the source raises its own Exception

  /** The prelude: only these first lines are searched for the program, and student rows start after them. */
  const PreludeLines: nat := 9

  /**
   * What one prelude line says about the program: None when it is not a
   * two-field `"Utbildningskod"` or `"Utbildning"` line, otherwise the first
   * word of its quote-stripped second field (None inside when that is blank).
   * The line is not stripped first, so the second field may end in a newline.
   */
  function ProgramOnLine(line: string): (r: Option<Option<string>>)
    ensures r.Some? <==> |Split(line, ';')| == 2 && Split(line, ';')[0] in {"\"Utbildningskod\"", "\"Utbildning\""}
    ensures r.Some? && r.value.Some? ==> r.value.value != [] && Whitespace !! set c | c in r.value.value
  {
    var elems := Split(line, ';');
    if |elems| == 2 && (elems[0] == "\"Utbildningskod\"" || elems[0] == "\"Utbildning\"") then
      Some(FirstWord(StripQuotes(elems[1])))
    else
      None
  }

  /** A student row: the quote-stripped identifier and record, or None for a row of fewer than five fields. */
  function StudentRow(line: string): (r: Option<(string, Student)>)
    ensures r.Some? <==> |Split(Strip(line, Whitespace), ';')| >= 5
  {
    var data := Split(Strip(line, Whitespace), ';');
    if |data| < 5 then
      None
    else
      Some((StripQuotes(data[0]),
            Student(StripQuotes(data[1]), StripQuotes(data[2]), StripQuotes(data[3]), StripQuotes(data[4]))))
  }

  function StudentEntries(rows: seq<string>): (entries: seq<Option<(string, Student)>>)
    ensures |entries| == |rows|
    ensures forall i :: 0 <= i < |rows| ==> entries[i] == StudentRow(rows[i])
  {
    seq(|rows|, i requires 0 <= i < |rows| => StudentRow(rows[i]))
  }

  /** One more row adds its entry at the end. */
  lemma StudentEntriesStep(rows: seq<string>, k: nat)
    requires k < |rows|
    ensures StudentEntries(rows[..k + 1]) == StudentEntries(rows[..k]) + [StudentRow(rows[k])]
  {
    var a := StudentEntries(rows[..k + 1]);
    var b := StudentEntries(rows[..k]) + [StudentRow(rows[k])];
    assert |a| == |b|;
    forall i | 0 <= i < |a|
      ensures a[i] == b[i]
    {
      if i < k {
        assert rows[..k + 1][i] == rows[..k][i];
      }
    }
  }

  /** The entry of row `i - 9` is that of line `i`. */
  lemma EntryOfLine(lines: seq<string>, rows: seq<string>, i: int)
    requires rows == if |lines| <= PreludeLines then [] else lines[PreludeLines..]
    requires PreludeLines <= i < |lines|
    ensures 0 <= i - PreludeLines < |rows| && StudentEntries(rows)[i - PreludeLines] == StudentRow(lines[i])
  {
    assert rows[i - PreludeLines] == lines[i];
  }

  /** The number of prelude lines the file has. */
  function PreludeCount(lines: seq<string>): nat
  {
    if |lines| < PreludeLines then |lines| else PreludeLines
  }

  /**
   * Reads the program code from the prelude (a later matching line wins) and
   * maps every student identifier from line 9 on to its last record.
   */
  method ReadProgramStudents(lines: seq<string>) returns (r: Result<(string, map<string, Student>), Error>)
    ensures var n := PreludeCount(lines);
      r == Failure(NoProgramWord) <==> exists i :: 0 <= i < n && ProgramOnLine(lines[i]) == Some(None)
    ensures var n := PreludeCount(lines);
      r == Failure(NoProgramLine) <==> forall i :: 0 <= i < n ==> ProgramOnLine(lines[i]).None?
    ensures r.Success? ==> var n := PreludeCount(lines);
      exists i :: 0 <= i < n && ProgramOnLine(lines[i]) == Some(Some(r.value.0))
                  && forall j :: i < j < n ==> ProgramOnLine(lines[j]).None?
    ensures r.Success? ==> forall id :: id in r.value.1 <==>
      exists i :: PreludeLines <= i < |lines| && StudentRow(lines[i]).Some? && StudentRow(lines[i]).value.0 == id
    ensures r.Success? ==> forall id :: id in r.value.1 ==>
      exists i :: PreludeLines <= i < |lines| && StudentRow(lines[i]) == Some((id, r.value.1[id]))
                  && forall j :: i < j < |lines| ==> StudentRow(lines[j]).None? || StudentRow(lines[j]).value.0 != id
  {
    var n := PreludeCount(lines);
    var program: Option<string> := None;
    ghost var last := -1;
    var i := 0;
    while i < n
      invariant 0 <= i <= n
      invariant forall j :: 0 <= j < i ==> ProgramOnLine(lines[j]) != Some(None)
      invariant program.None? ==> last == -1
      invariant program.Some? ==> 0 <= last < i && ProgramOnLine(lines[last]) == Some(program)
      invariant forall j :: last < j < i ==> ProgramOnLine(lines[j]).None?
    {
      var found := ProgramOnLine(lines[i]);
      if found.Some? {
        if found.value.None? {
          return Failure(NoProgramWord);
        }
        program := found.value;
        last := i;
      }
      i := i + 1;
    }
    // Python's for-else: the check runs once the loop has finished.
    if program.None? {
      return Failure(NoProgramLine);
    }

    var students: map<string, Student> := map[];
    var rows := if |lines| <= PreludeLines then [] else lines[PreludeLines..];
    ghost var entries: seq<Option<(string, Student)>> := [];
    var k := 0;
    while k < |rows|
      invariant 0 <= k <= |rows|
      invariant entries == StudentEntries(rows[..k])
      invariant students == Assigned(entries)
    {
      var row := StudentRow(rows[k]);
      StudentEntriesStep(rows, k);
      AssignedStep(entries, row);
      if row.Some? {
        students := students[row.value.0 := row.value.1];
      }
      entries := entries + [row];
      k := k + 1;
    }
    assert rows[..k] == rows;
    StudentKeys(lines, rows, students);
    LastStudentRowWins(lines, rows, students);
    r := Success((program.value, students));
  }

  /** The student map has an entry for exactly the identifiers of the rows from line 9 on. */
  lemma StudentKeys(lines: seq<string>, rows: seq<string>, students: map<string, Student>)
    requires rows == if |lines| <= PreludeLines then [] else lines[PreludeLines..]
    requires students == Assigned(StudentEntries(rows))
    ensures forall id :: id in students <==>
      exists i :: PreludeLines <= i < |lines| && StudentRow(lines[i]).Some? && StudentRow(lines[i]).value.0 == id
  {
    var entries := StudentEntries(rows);
    LastAssignmentWins(entries);
    forall id
      ensures id in students <==>
        exists i :: PreludeLines <= i < |lines| && StudentRow(lines[i]).Some? && StudentRow(lines[i]).value.0 == id
    {
      if id in students {
        var i :| Assigns(entries, i, id);
        EntryOfLine(lines, rows, PreludeLines + i);
      }
      if i :| PreludeLines <= i < |lines| && StudentRow(lines[i]).Some? && StudentRow(lines[i]).value.0 == id {
        EntryOfLine(lines, rows, i);
        assert Assigns(entries, i - PreludeLines, id);
      }
    }
  }

  /** Each identifier's record is the one from its last row. */
  lemma LastStudentRowWins(lines: seq<string>, rows: seq<string>, students: map<string, Student>)
    requires rows == if |lines| <= PreludeLines then [] else lines[PreludeLines..]
    requires students == Assigned(StudentEntries(rows))
    ensures forall id :: id in students ==>
      exists i :: PreludeLines <= i < |lines| && StudentRow(lines[i]) == Some((id, students[id]))
                  && forall j :: i < j < |lines| ==> StudentRow(lines[j]).None? || StudentRow(lines[j]).value.0 != id
  {
    var entries := StudentEntries(rows);
    LastAssignmentWins(entries);
    forall id | id in students
      ensures exists i :: PreludeLines <= i < |lines| && StudentRow(lines[i]) == Some((id, students[id]))
                          && forall j :: i < j < |lines| ==> StudentRow(lines[j]).None? || StudentRow(lines[j]).value.0 != id
    {
      var i :| LastAssigns(entries, i, id) && entries[i].value.1 == students[id];
      var li := PreludeLines + i;
      EntryOfLine(lines, rows, li);
      NoLaterStudentRow(lines, rows, i, id);
      assert PreludeLines <= li < |lines|;
    }
  }

  lemma NoLaterStudentRow(lines: seq<string>, rows: seq<string>, i: nat, id: string)
    requires rows == if |lines| <= PreludeLines then [] else lines[PreludeLines..]
    requires LastAssigns(StudentEntries(rows), i, id)
    ensures forall j :: PreludeLines + i < j < |lines| ==> StudentRow(lines[j]).None? || StudentRow(lines[j]).value.0 != id
  {
    var entries := StudentEntries(rows);
    forall j | PreludeLines + i < j < |lines|
      ensures StudentRow(lines[j]).None? || StudentRow(lines[j]).value.0 != id
    {
      EntryOfLine(lines, rows, j);
      assert !Assigns(entries, j - PreludeLines, id);
    }
  }
}
