/**
 * The aggregations of the credit table: per-student totals for the period,
 * the ranking of courses by the credits the program's students produced,
 * and the course -> student -> credits table. Each builds its dict step by
 * step, looping over the keys of the dicts it reads; a dict's keys are
 * visited in an order the model leaves open.
 */
module Aggregation {
  import opened Sums
  import opened StudentFile
  import opened ResultFile
  import opened Ranking

  /** The credits of one student's courses, summed per course. */
  ghost function CourseSums(courses: CourseResults): (sums: map<string, real>)
    ensures sums.Keys == courses.Keys
  {
    map c | c in courses :: Sum(courses[c])
  }

  /** A student's score for the period: every module credit over every course, 0 for one without results. */
  ghost function PeriodScore(results: Results, pnr: string): real
  {
    if pnr in results then Sum(CourseSums(results[pnr])) else 0.0
  }

  /** A student's credits in one course, 0 when the student has none there. */
  ghost function CourseScore(results: Results, pnr: string, code: string): real
  {
    if pnr in results && code in results[pnr] then Sum(results[pnr][code]) else 0.0
  }

  /** What each identifier of `results` adds to the total of course `code`: nothing unless it is a student. */
  ghost function Contribution(students: map<string, Student>, results: Results, code: string): (shares: map<string, real>)
    ensures shares.Keys == results.Keys
  {
    map pnr | pnr in results :: if pnr in students then CourseScore(results, pnr, code) else 0.0
  }

  /** The total credits the students produced in course `code`. */
  ghost function CourseTotal(students: map<string, Student>, results: Results, code: string): real
  {
    Sum(Contribution(students, results, code))
  }

  /** Every course code that occurs in the results, whoever took it. */
  ghost function AllCodes(results: Results): set<string>
  {
    set pnr, c | pnr in results && c in results[pnr] :: c
  }

  /** The results of the identifiers in `done`. */
  ghost function Restrict(results: Results, done: set<string>): (part: Results)
    ensures part.Keys == results.Keys * done
  {
    map pnr | pnr in results && pnr in done :: results[pnr]
  }

  /** The codes `get_course_codes` ranks: those with a positive total. */
  ghost function RankedCodes(students: map<string, Student>, results: Results): set<string>
  {
    set c | c in AllCodes(results) && CourseTotal(students, results, c) > 0.0
  }

  /** The ranking `get_course_codes` returns: no repeats, exactly the courses with a positive total, largest total first. */
  ghost predicate Ranked(students: map<string, Student>, results: Results, codes: seq<string>)
  {
    && Distinct(codes)
    && (forall c :: c in codes <==> c in RankedCodes(students, results))
    && (forall i, j :: 0 <= i < j < |codes| ==>
          CourseTotal(students, results, codes[i]) >= CourseTotal(students, results, codes[j]))
  }

  /** The innermost loops: `total += hp` over the modules of one course. */
  method AddCredits(acc: real, credits: Credits) returns (total: real)
    ensures total == acc + Sum(credits)
  {
    total := acc;
    var left := credits.Keys;
    while left != {}
      invariant left <= credits.Keys
      invariant total == acc + SumOver(credits, credits.Keys - left)
      decreases left
    {
      var m :| m in left;
      SumOverAdd(credits, credits.Keys - left, m);
      assert (credits.Keys - left) + {m} == credits.Keys - (left - {m});
      total := total + credits[m];
      left := left - {m};
    }
    assert credits.Keys - left == credits.Keys;
  }

  /** The loops over one student's courses and their modules, adding every credit to `acc`. */
  method AddCourses(acc: real, courses: CourseResults) returns (total: real)
    ensures total == acc + Sum(CourseSums(courses))
  {
    total := acc;
    var left := courses.Keys;
    while left != {}
      invariant left <= courses.Keys
      invariant total == acc + SumOver(CourseSums(courses), courses.Keys - left)
      decreases left
    {
      var c :| c in left;
      SumOverAdd(CourseSums(courses), courses.Keys - left, c);
      assert (courses.Keys - left) + {c} == courses.Keys - (left - {c});
      total := AddCredits(total, courses[c]);
      left := left - {c};
    }
    assert courses.Keys - left == courses.Keys;
  }

  /**
   * `compute_scores_per_period`: one score per student, the sum of all the
   * student's module credits, 0 for a student without results; identifiers
   * that are not students get no score.
   */
  method ComputeScoresPerPeriod(students: map<string, Student>, results: Results) returns (scores: map<string, real>)
    ensures scores.Keys == students.Keys
    ensures forall pnr :: pnr in scores ==> scores[pnr] == PeriodScore(results, pnr)
  {
    scores := map[];
    var left := students.Keys;
    while left != {}
      invariant left <= students.Keys
      invariant scores.Keys == students.Keys - left
      invariant forall pnr :: pnr in scores ==> scores[pnr] == PeriodScore(results, pnr)
      decreases left
    {
      var pnr :| pnr in left;
      if pnr in results {
        if pnr !in scores {
          scores := scores[pnr := 0.0];
        }
        var total := AddCourses(scores[pnr], results[pnr]);
        scores := scores[pnr := total];
      } else {
        scores := scores[pnr := 0.0];
      }
      left := left - {pnr};
    }
  }

  /** Adding one identifier's results to the ones counted adds its share to every course total. */
  lemma CourseTotalStep(students: map<string, Student>, results: Results, done: set<string>, p: string, code: string)
    requires p in results && p !in done
    ensures CourseTotal(students, Restrict(results, done + {p}), code)
      == CourseTotal(students, Restrict(results, done), code) + (if p in students then CourseScore(results, p, code) else 0.0)
  {
    var before := Contribution(students, Restrict(results, done), code);
    var after := Contribution(students, Restrict(results, done + {p}), code);
    assert after.Keys == before.Keys + {p};
    SumOverAdd(after, before.Keys, p);
    SumOverAgree(after, before, before.Keys);
  }

  /** A course nobody in `results` took has total 0. */
  lemma CourseTotalNone(students: map<string, Student>, results: Results, code: string)
    requires code !in AllCodes(results)
    ensures CourseTotal(students, results, code) == 0.0
  {
    var empty: map<string, real> := map[];
    forall pnr | pnr in results
      ensures Contribution(students, results, code)[pnr] == 0.0
    {
      assert code !in results[pnr];
    }
    SumAgreeOnSupport(Contribution(students, results, code), empty);
    assert empty.Keys == {};
  }

  /** The codes of the counted results grow by the courses of the identifier added. */
  lemma AllCodesStep(results: Results, done: set<string>, p: string)
    requires p in results
    ensures AllCodes(Restrict(results, done + {p})) == AllCodes(Restrict(results, done)) + results[p].Keys
  {
    var part := Restrict(results, done + {p});
    forall c | c in results[p].Keys
      ensures c in AllCodes(part)
    {
      assert p in part && c in part[p];
    }
  }

  /**
   * `codes` and `order` as the loops of `get_course_codes` leave them once
   * the identifiers in `done` are processed: an entry for each of their
   * codes, holding the students' credits, and each code once in `order`.
   */
  ghost predicate Tallied(students: map<string, Student>, results: Results, done: set<string>,
                          codes: map<string, real>, order: seq<string>)
  {
    && codes.Keys == AllCodes(Restrict(results, done))
    && (forall c :: c in codes ==> codes[c] == CourseTotal(students, Restrict(results, done), c))
    && Distinct(order) && (forall c :: c in order <==> c in codes)
  }

  /**
   * The loops over one identifier's courses and their modules in
   * `get_course_codes`: a code met for the first time gets entry 0 and is
   * appended to `order`; the credits are added when `counted` (the
   * identifier is a student).
   */
  method TallyCourses(counted: bool, res: CourseResults, codes0: map<string, real>, order0: seq<string>)
    returns (codes: map<string, real>, order: seq<string>)
    requires Distinct(order0) && forall c :: c in order0 <==> c in codes0
    ensures forall c :: c in codes <==> c in codes0 || c in res
    ensures forall c :: c in codes ==>
      codes[c] == (if c in codes0 then codes0[c] else 0.0) + (if c in res && counted then Sum(res[c]) else 0.0)
    ensures Distinct(order) && (forall c :: c in order <==> c in codes) && |order0| <= |order| && order[..|order0|] == order0
  {
    codes, order := codes0, order0;
    ghost var seen: set<string> := {};
    var courses := res.Keys;
    while courses != {}
      invariant courses <= res.Keys && seen == res.Keys - courses
      invariant forall c :: c in codes <==> c in codes0 || c in seen
      invariant forall c :: c in codes ==>
        codes[c] == (if c in codes0 then codes0[c] else 0.0) + (if c in seen && counted then Sum(res[c]) else 0.0)
      invariant Distinct(order) && (forall c :: c in order <==> c in codes) && |order0| <= |order| && order[..|order0|] == order0
      decreases courses
    {
      var code :| code in courses;
      if code !in codes {
        FirstSight(order, codes, code, order0);
        codes := codes[code := 0.0];
        order := order + [code];
      }
      // The source tests `pnr in students` for every module; it is the same for all of them.
      if counted {
        var total := AddCredits(codes[code], res[code]);
        codes := codes[code := total];
      }
      courses := courses - {code};
      seen := seen + {code};
    }
  }

  /** Processing one more identifier keeps the dict and `order` as the loops promise. */
  lemma TalliedStep(students: map<string, Student>, results: Results, done: set<string>, pnr: string,
                    codes0: map<string, real>, order0: seq<string>, codes: map<string, real>, order: seq<string>)
    requires pnr in results && pnr !in done
    requires Tallied(students, results, done, codes0, order0)
    requires forall c :: c in codes <==> c in codes0 || c in results[pnr]
    requires forall c :: c in codes ==>
      codes[c] == (if c in codes0 then codes0[c] else 0.0)
                  + (if c in results[pnr] && pnr in students then Sum(results[pnr][c]) else 0.0)
    requires Distinct(order) && forall c :: c in order <==> c in codes
    ensures Tallied(students, results, done + {pnr}, codes, order)
  {
    forall c | c in codes
      ensures codes[c] == CourseTotal(students, Restrict(results, done + {pnr}), c)
    {
      CourseTotalStep(students, results, done, pnr, c);
      if c !in codes0 {
        CourseTotalNone(students, Restrict(results, done), c);
      }
    }
    AllCodesStep(results, done, pnr);
  }

  /**
   * The dict-building loops of `get_course_codes`: every code of every
   * identifier gets an entry on first sight, recorded in `order`, holding
   * the credits of the students only.
   */
  method CollectCodes(students: map<string, Student>, results: Results) returns (codes: map<string, real>, order: seq<string>)
    ensures codes.Keys == AllCodes(results)
    ensures forall c :: c in codes ==> codes[c] == CourseTotal(students, results, c)
    ensures Distinct(order) && forall c :: c in order <==> c in codes
  {
    codes := map[];
    order := [];
    ghost var done: set<string> := {};
    var left := results.Keys;
    assert AllCodes(Restrict(results, done)) == {};
    while left != {}
      invariant left <= results.Keys && done == results.Keys - left
      invariant Tallied(students, results, done, codes, order)
      decreases left
    {
      var pnr :| pnr in left;
      ghost var codes0, order0 := codes, order;
      codes, order := TallyCourses(pnr in students, results[pnr], codes, order);
      TalliedStep(students, results, done, pnr, codes0, order0, codes, order);
      done := done + {pnr};
      left := left - {pnr};
    }
    assert Restrict(results, done) == results;
  }

  /** A code met for the first time is appended to `order`, which keeps its earlier codes in front. */
  lemma FirstSight(order: seq<string>, codes: map<string, real>, code: string, order0: seq<string>)
    requires Distinct(order) && forall c :: c in order <==> c in codes
    requires code !in codes
    requires |order0| <= |order| && order[..|order0|] == order0
    ensures var order' := order + [code];
      && Distinct(order') && (forall c :: c in order' <==> c in codes[code := 0.0])
      && |order0| <= |order'| && order'[..|order0|] == order0
  {
    assert (order + [code])[..|order0|] == order[..|order0|];
  }

  /**
   * `get_course_codes`: the codes ranked by the students' total credits,
   * largest first (codes with equal totals in the order they were first
   * met), without the codes whose total is not positive.
   */
  method GetCourseCodes(students: map<string, Student>, results: Results) returns (ranked: seq<string>)
    ensures Ranked(students, results, ranked)
  {
    var codes, order := CollectCodes(students, results);
    var sorted := SortByTotal(order, codes);
    SortByTotalSpec(order, codes);
    KeepPositiveSorted(sorted, codes);
    KeepPositiveDistinct(sorted, codes);
    ranked := KeepPositive(sorted, codes);
  }

  /**
   * `compute_student_scores_per_course`: for each ranked code, every
   * student's credits in that course, 0 for a student without any.
   */
  method ComputeStudentScoresPerCourse(students: map<string, Student>, results: Results)
    returns (scores: map<string, map<string, real>>)
    ensures forall c :: c in scores <==> c in RankedCodes(students, results)
    ensures forall c :: c in scores ==> scores[c].Keys == students.Keys
    ensures forall c, pnr :: c in scores && pnr in scores[c] ==> scores[c][pnr] == CourseScore(results, pnr, c)
  {
    var codes := GetCourseCodes(students, results);
    scores := map[];
    var i := 0;
    while i < |codes|
      invariant 0 <= i <= |codes|
      invariant forall c :: c in scores <==> c in codes[..i]
      invariant forall c :: c in scores ==> scores[c].Keys == students.Keys
      invariant forall c, pnr :: c in scores && pnr in scores[c] ==> scores[c][pnr] == CourseScore(results, pnr, c)
    {
      var code := codes[i];
      var row: map<string, real> := map[];
      var left := students.Keys;
      while left != {}
        invariant left <= students.Keys
        invariant row.Keys == students.Keys - left
        invariant forall pnr :: pnr in row ==> row[pnr] == CourseScore(results, pnr, code)
        decreases left
      {
        var pnr :| pnr in left;
        var sc := 0.0;
        if pnr in results && code in results[pnr] {
          sc := AddCredits(sc, results[pnr][code]);
        }
        row := row[pnr := sc];
        left := left - {pnr};
      }
      scores := scores[code := row];
      assert codes[..i + 1] == codes[..i] + [code];
      i := i + 1;
    }
    assert codes[..i] == codes;
  }

  /** A course's total is the sum, over the students alone, of each student's credits in it. */
  lemma CourseTotalOverStudents(students: map<string, Student>, results: Results, code: string)
    ensures CourseTotal(students, results, code) == Sum(map pnr | pnr in students :: CourseScore(results, pnr, code))
  {
    SumAgreeOnSupport(Contribution(students, results, code), map pnr | pnr in students :: CourseScore(results, pnr, code));
  }

  /** No module credit in the table is negative. */
  ghost predicate NonNegative(results: Results)
  {
    forall pnr, c, m :: pnr in results && c in results[pnr] && m in results[pnr][c] ==> results[pnr][c][m] >= 0.0
  }

  /** With no negative credits, a student's credits in a course lie between 0 and the course total. */
  lemma ShareWithinTotal(students: map<string, Student>, results: Results, pnr: string, code: string)
    requires NonNegative(results) && pnr in students
    ensures 0.0 <= CourseScore(results, pnr, code) <= CourseTotal(students, results, code)
  {
    var shares := Contribution(students, results, code);
    forall p | p in shares
      ensures shares[p] >= 0.0
    {
      if p in students && code in results[p] {
        SumOverBoundsEach(results[p][code], results[p][code].Keys);
      }
    }
    SumOverBoundsEach(shares, shares.Keys);
    if pnr !in results {
      assert CourseScore(results, pnr, code) == 0.0;
    }
  }

  /**
   * With no negative credits, a student's entries in the per-course table,
   * summed over the ranked codes, give the student's score for the period:
   * a course left out of the ranking has total 0, so every student has 0 in it.
   */
  lemma PerCourseSumsToScore(students: map<string, Student>, results: Results, pnr: string)
    requires NonNegative(results) && pnr in students
    ensures Sum(map c | c in RankedCodes(students, results) :: CourseScore(results, pnr, c)) == PeriodScore(results, pnr)
  {
    var row := map c | c in RankedCodes(students, results) :: CourseScore(results, pnr, c);
    if pnr in results {
      var sums := CourseSums(results[pnr]);
      forall c | c in sums && c !in row
        ensures sums[c] == 0.0
      {
        assert c in AllCodes(results) by {
          assert pnr in results && c in results[pnr];
        }
        ShareWithinTotal(students, results, pnr, c);
      }
      SumAgreeOnSupport(row, sums);
    } else {
      var empty: map<string, real> := map[];
      SumAgreeOnSupport(row, empty);
      assert empty.Keys == {};
    }
  }
}
