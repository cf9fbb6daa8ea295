# genomstromning in Dafny

A verified model of the data-handling core of *genomstromning*, a reporting tool
for study programs. The tool reads registry exports and computes how many
credits (hp, *högskolepoäng*) a program's students earned over a period, and how
much full-year production (HÅP, *helårsprestation*) each course round produced.
It has three parts, and the model follows them:

- **Reading the exports.**
  - `StudentFile` reads the program's student register. The program code comes
    from a metadata prelude, and each student row after the prelude gives a
    record.
  - `ResultFile` reads the course-result exports into a table: identifier ->
    course -> module -> credits. It applies a cutoff date and the
    passing-grade and module-code rules. The last row for a module wins.
  - `Merits` extracts the BI, BII and HP merit values from a free-text field.
- **Aggregating the results** (`Aggregation`, `Ranking`).
  - Each student's total for the period.
  - The ranking of courses by the credits the students produced in them.
  - The course -> student -> credits table.
- **Reporting course production** (`Production`, `ProductionReport`).
  - The course filter.
  - The term label (`VT`, `ST` or `HT` plus a two-digit year) of a round's
    start date.
  - The enumeration of term labels a chart shows.
  - Reading the production export into metadata and per-course rounds.
  - Summing the HÅP of the rounds into term buckets.
- **Chart styles** (`Styles`). Each course code keeps the color and hatch its
  bars are drawn with. New codes take colors from a pool.

Python's building blocks are modelled in small modules of their own:

- `Text`: `split`, `strip`, slicing.
- `Numbers`: `int`, `str`, `float` on plain decimals, and the decimal comma.
- `Dates`: `date.fromisoformat` and `isoformat`.
- `Dicts`: a dict filled by repeated assignment.
- `Sums`: the sum of a dict's values, independent of iteration order.

The model follows these conventions:

- A file is the sequence of its lines, as `readlines` returns them.
- An exception is a `Failure` value naming its cause.
- Python floats are exact reals.
- A loop over a dict's keys picks any key still left, so the model does not
  depend on dict iteration order.

Where the source changes state, the model does too:

- The aggregators and readers are methods with loops that fill maps.
- The style memo is a class whose method updates its fields.

Each method is proved against a specification function, and the specification
functions have their own lemmas.

## Model

| member | source | states |
|---|---|---|
| Aggregation.AddCredits | genomstromning/main.py:59-60 | adding a course's module credits one at a time gives the start value plus the sum of all of them, in whatever order the modules are visited |
| Aggregation.AddCourses | genomstromning/main.py:22-24 | adding every module credit of every course gives the start value plus the sum of the per-course sums |
| Aggregation.ComputeScoresPerPeriod | genomstromning/main.py:12-27 | every student gets exactly one entry, and no other identifier does; a student without results scores 0, any other the sum of all module credits over all their courses |
| Aggregation.TallyCourses | genomstromning/main.py:37-42 | one identifier's courses: each code gets an entry, starting at 0 when new, and the code's credits are added only when the identifier is a student; a new code is appended to the first-met order, which keeps earlier codes in front and has no repeats |
| Aggregation.CollectCodes | genomstromning/main.py:35-42 | the dict has an entry for exactly the codes anyone took; each entry is the course's total over the students only; the first-met order lists each code once |
| Aggregation.GetCourseCodes | genomstromning/main.py:30-46 | the result has no repeats, holds exactly the codes whose student total is positive, and lists them with non-increasing totals |
| Aggregation.ComputeStudentScoresPerCourse | genomstromning/main.py:49-62 | keys are exactly the ranked codes; under each, every student and no one else has an entry, equal to that student's credits in the course, or 0 without results there |
| Aggregation.CourseTotalOverStudents | genomstromning/main.py:40-42 | a course's total equals the sum over the students alone of each one's credits in it; other identifiers add nothing |
| Aggregation.ShareWithinTotal | genomstromning/main.py:58-61 | without negative credits, a student's credits in a course lie between 0 and the course total |
| Aggregation.PerCourseSumsToScore | genomstromning/main.py:49-62 | without negative credits, a student's per-course entries summed over the ranked codes equal the student's period total |
| Ranking.Insert | genomstromning/main.py:44 | inserting a code adds exactly that code: the multiset grows by it |
| Ranking.InsertSorted | genomstromning/main.py:44 | inserting into codes sorted by non-increasing total keeps them sorted |
| Ranking.SortByTotal | genomstromning/main.py:44 | the sorted codes are a permutation of the input codes |
| Ranking.SortByTotalSpec | genomstromning/main.py:44 | the sorted codes have non-increasing totals; codes without repeats stay without repeats |
| Ranking.KeepPositive | genomstromning/main.py:45 | a code is kept exactly when it is in the input and its total is positive |
| Ranking.KeepPositiveSorted | genomstromning/main.py:45 | filtering keeps non-increasing order |
| Ranking.KeepPositiveDistinct | genomstromning/main.py:45 | filtering adds no repeats |
| Styles.CourseStyles.constructor | genomstromning/main.py:75-106 | the memo holds the fifteen predefined course styles and the pool the thirteen predefined colors, all from the palette |
| Styles.CourseStyles.ColorAndHatchFor | genomstromning/main.py:108-117 | a known code returns its stored pair and changes nothing; a new code takes the pool's last color with hatch `\\`, records the pair and returns it; an empty pool fails and changes nothing; memo size plus pool size is preserved |
| Styles.AskTwice | genomstromning/main.py:108-117 | a second request for the same code returns the first answer, and a color is popped only when the code was new |
| StudentFile.StudentRow | genomstromning/io.py:29-36 | a line is a student row exactly when it has at least five `;`-separated fields after stripping |
| StudentFile.ProgramOnLine | genomstromning/io.py:18-23 | a prelude line names the program exactly when it splits into two `;` fields and the first is `"Utbildningskod"` or `"Utbildning"`; the word it gives is non-empty and has no whitespace, and a blank field gives none (the IndexError) |
| StudentFile.ReadProgramStudents | genomstromning/io.py:4-38 | fails on a blank program field in a matching prelude line, or when none of the first nine lines names the program; otherwise the program is the word of the last matching prelude line, the students are exactly the identifiers of the rows from line 9 on, and each has the record of its last row |
| StudentFile.StudentKeys | genomstromning/io.py:28-34 | an identifier is a key exactly when some row from line 9 on carries it |
| StudentFile.LastStudentRowWins | genomstromning/io.py:33-36 | each student's record is that of the last row carrying the identifier |
| StudentFile.NoLaterStudentRow | genomstromning/io.py:33-36 | after the last assignment of an identifier no later line carries it |
| Dicts.LastAssignmentWins | genomstromning/io.py:33-36 | a key is in a dict filled by assignments exactly when some assignment names it, and its value is the last one assigned |
| ResultFile.ClassifyFields | genomstromning/io.py:55-82 | a row is skipped exactly when it has fewer than five fields; a date after the cutoff keeps only the student; a module code of at most one character or a failing grade keeps only the course; a passing row records the module with its credits read through the decimal comma |
| ResultFile.ClassifyFieldsFails | genomstromning/io.py:56-82 | a row raises exactly when it has an unparsable date, or is not late and lacks the module field, or has a real module code and lacks the grade, or passes with unparsable credits |
| ResultFile.ClassifyAll | genomstromning/io.py:55-82 | on success there is one classification per line; `ClassifyAllSpec` gives the contents |
| ResultFile.ClassifyAllSpec | genomstromning/io.py:55-82 | each classified row is its line's classification; a failure is that of the first line that raises |
| ResultFile.FailureSticks | genomstromning/io.py:52-82 | once a line raises, later lines do not change the outcome |
| ResultFile.Step | genomstromning/io.py:60-82 | a skipped row leaves the table alone; any other row puts its student in the table; a passing row sets its module's credits, overwriting an earlier value (`StepCourses`, `StepModules` say that nothing else is added) |
| ResultFile.AccumulateStudents | genomstromning/io.py:60-62 | an identifier is in the table exactly when some non-skipped row names it, even a row rejected later |
| ResultFile.AccumulateCourses | genomstromning/io.py:74-76 | a course is under a student exactly when some row that is not late names it |
| ResultFile.AccumulateModules | genomstromning/io.py:77-82 | a module is recorded exactly when some passing row records it |
| ResultFile.AccumulateLastWins | genomstromning/io.py:80-82 | a module's credits are those of the last row recording it; earlier values are overwritten, not added |
| ResultFile.TableCreditsComeFromLines | genomstromning/io.py:69-82 | every credit in the table comes from a line with a passing grade, a module code longer than one character, no date after the cutoff, and credits that parse to that value |
| ResultFile.ApplyRow | genomstromning/io.py:60-82 | the in-place update of the nested dicts by one row is the row's step on the table |
| ResultFile.ReadCourseResults | genomstromning/io.py:41-83 | over all files, minus their eight header lines, the result is the table the classified rows build in order, or the error of the first line that raises |
| Merits.FirstMatchSpec | genomstromning/io.py:93-95 | the search fails exactly when the pattern matches nowhere, and otherwise finds the leftmost match |
| Merits.ParseMerits | genomstromning/io.py:91-102 | the keys are among BI, BII and HP; a kind is present exactly when its search succeeds, with the value its match captures |
| Merits.ParseMeritsSpec | genomstromning/io.py:93-101 | a kind is present exactly when its pattern occurs somewhere, and its value is that of the leftmost occurrence |
| Merits.CapturedNumberParses | genomstromning/io.py:97-101 | the captured text is a plain decimal that `float` reads as the match's value |
| Merits.MatchAtSound | genomstromning/io.py:86-95 | a match at a position consumes the name, a non-empty run of whitespace, `(`, the captured whole digits, `.`, the captured fraction digits and `)` |
| Merits.NumberAtShape | genomstromning/io.py:86-95 | text of that shape after the name, with any non-empty whitespace run, is matched and captures exactly its number |
| Merits.MatchRendered | genomstromning/io.py:86-88 | the pattern matched on `NAME`, any non-empty run of whitespace and `(whole.fraction)`, whatever follows, captures exactly that number |
| Merits.BiNotInsideBii | genomstromning/io.py:86-87 | the BI pattern never matches where `BII` is written |
| Dates.ParseIsoDate | genomstromning/io.py:70 | whatever is accepted is a calendar date |
| Dates.ParseFormatRoundTrip | genomstromning/io.py:70 | parsing the ISO rendering of any date gives the date back |
| Dates.ParsedDateFormatsBack | genomstromning/io.py:70 | an accepted string is exactly the ISO rendering of the date it gives |
| Numbers.ParseUnsignedDecimal | genomstromning/io.py:82 | `float` of digits with an optional decimal part is their exact value |
| Numbers.DecimalCommaBetweenDigits | genomstromning/io.py:81 | replacing `,` with `.` between two digit strings changes only the comma |
| Numbers.MakeFloat | genomstromning/production.py:60-65 | a text without a comma reads exactly as `float` reads it; `MakeFloatOfCommaDecimal` covers the decimal comma |
| Numbers.MakeFloatOfCommaDecimal | genomstromning/production.py:60-65 | a number written with a decimal comma reads as its whole part plus its fraction |
| Numbers.ParseDecimalOfNat | genomstromning/io.py:82 | property of the model of the builtin `float` applied here: on every numeral `str` writes for a natural number it gives back that number (Python's `float(str(n)) == n`), so a whole-number credit written as `str` writes it (`15`) reads back as that number |
| Numbers.ParseIntRoundTrip | genomstromning/production.py:105 | property of the model of the builtin `int` applied here to the month: on every numeral `str` writes, sign included, it gives back that integer (Python's `int(str(n)) == n`), so a month written as `str` writes it (`11`) reads back as that month |
| Text.Split | genomstromning/io.py:29 | `split(sep)` gives at least one field; `SplitFields` and `SplitJoin` give the contents |
| Text.SplitFields | genomstromning/io.py:56 | the fields of `split(';')` contain no separator and join back to the line |
| Text.SplitJoin | genomstromning/io.py:56 | splitting the join of separator-free fields gives the fields back |
| Text.Strip | genomstromning/io.py:29 | `strip` never lengthens the text; `StripSpec` says what it removes |
| Text.StripSpec | genomstromning/io.py:56 | `strip` removes exactly the leading and trailing characters of the set |
| Text.FirstWord | genomstromning/io.py:23 | a word `split()[0]` gives is non-empty and has no whitespace |
| Text.FirstWordSpec | genomstromning/io.py:23 | `split()[0]` exists exactly when the text has a non-whitespace character; it is the first maximal non-whitespace run: it starts where the leading whitespace ends and is followed by whitespace or the end |
| Text.SliceEqualsPrefix | genomstromning/production.py:79 | `course[:n] == p` with `n = len(p)` holds exactly when `p` is a prefix of the course |
| Production.IsAKeeper | genomstromning/production.py:68-85 | a non-empty explicit list keeps exactly its members; otherwise an exclusion prefix keeps exactly the codes not starting with it; otherwise a restriction prefix keeps exactly the codes starting with it; with no filter every code is kept |
| Production.YearSemester | genomstromning/production.py:99-110 | succeeds exactly when the date splits into three `-` parts with an integer month; the label is `VT` before June, `ST` in June and July and `HT` from August, followed by characters 2-3 of the year |
| Production.YearSemesterOfIsoDate | genomstromning/production.py:99-110 | on the ISO rendering of a date, the label is the month's term followed by the year modulo 100 in two digits |
| Production.LastTwoDigits | genomstromning/production.py:104 | characters 2-3 of a four-digit year are the year modulo 100 in two digits |
| Production.Semesters | genomstromning/production.py:113-121 | the enumeration has three labels per year from start to end, none when end is before start |
| Production.SemestersAt | genomstromning/production.py:113-121 | label `i` is term `i % 3` of year `start + i / 3`: ascending years, each `VT`, `ST`, `HT` |
| Production.GenerateSemestersAsWritten | genomstromning/production.py:113-121 | `generate_semesters` as written: three labels per year from start to end, label `i` being term `i % 3` followed by `str` of year `start + i / 3` |
| Production.GenerateSemesters | genomstromning/production.py:113-121 | the corrected enumeration: the same labels with the year zero-padded to two digits |
| Production.TwoDigitsFixed | genomstromning/production.py:121 | the corrected year label of 0-99 is its two-digit rendering |
| Production.NoLeadingZero | genomstromning/production.py:121 | `str` of a number of two or more digits does not start with `0` |
| Production.GeneratedCoversDates | genomstromning/production.py:113-121 | with zero-padded years, every date whose year modulo 100 lies in the range has its label in the enumeration, at position `3 * (year - start) + term` |
| Production.AsWrittenMissesLeadingZeroYears | genomstromning/production.py:119-121 | as written, the label of a date in a year ending in 00-09 is never enumerated |
| Production.AsWrittenCounterexample | genomstromning/production.py:119-121 | a round starting 2005-03-01 gets `VT05`, which the enumeration of years 5 to 5 lacks as written and contains once corrected |
| ProductionReport.HeaderIndexFirst | genomstromning/production.py:29-34 | no line before the header index is a header line |
| ProductionReport.HeaderIndexAt | genomstromning/production.py:29-34 | the header index is the first line with at least two fields whose first field is `Kurskod` |
| ProductionReport.MetadataStep | genomstromning/production.py:30-35 | a line is the header or adds its two quote-stripped fields to the metadata, a later line overwriting an earlier one |
| ProductionReport.ReadMetadata | genomstromning/production.py:28-35 | the loop stops at the header line, or the end without one, and the metadata is the dict the lines before it assign |
| ProductionReport.RemoveQuotes | genomstromning/production.py:40 | the result has no quote and is no longer; a line without quotes is returned unchanged |
| ProductionReport.RemoveQuotesLength | genomstromning/production.py:40 | the result is shorter than the line by exactly its number of quotes |
| ProductionReport.RemoveQuotesAppend | genomstromning/production.py:40 | removing quotes works piece by piece, so every other character is kept, in order |
| ProductionReport.ParseRow | genomstromning/production.py:40-49 | a row is dropped exactly when the filter rejects its code; a kept row has thirteen fields and parsable credits and HÅP, and every such row is kept |
| ProductionReport.ParseFailureSticks | genomstromning/production.py:39-55 | once a line raises, later lines do not change the outcome |
| ProductionReport.ParsedRowsKept | genomstromning/production.py:42 | every parsed row's course passes the filter |
| ProductionReport.GroupSpec | genomstromning/production.py:50-55 | a course is present exactly when some row has its code; its rounds are those rows' rounds in order; name and credits come from its first row |
| ProductionReport.ReadCourses | genomstromning/production.py:38-55 | the kept rows grouped by course, or the error of the first line that raises |
| ProductionReport.ReadProduction | genomstromning/production.py:18-57 | an empty file fails; otherwise the data starts after the header line (no data without one), and the result is the grouped courses and the metadata of the lines before the header |
| ProductionReport.RoundTerms | genomstromning/production.py:156-158 | on success there is one label per round |
| ProductionReport.RoundTermsSpec | genomstromning/production.py:156-158 | each label is its round's term; a failure is that of the first round whose date is rejected |
| ProductionReport.HapInStep | genomstromning/production.py:158-162 | a round adds its HÅP to the bucket of its own term and to no other |
| ProductionReport.HapInNone | genomstromning/production.py:165 | a term no round starts in gets 0 |
| ProductionReport.Get | genomstromning/production.py:165 | `production.get(term, 0.0)`: a term's total, or 0.0 for a term without one |
| ProductionReport.Bars | genomstromning/production.py:165 | one bar per term of the enumeration, in its order, each the term's total or 0.0 |
| ProductionReport.SemesterProduction | genomstromning/production.py:150-165 | one bar per term `generate_semesters` lists as written (years without zero padding), holding the HÅP of the rounds starting in that term, 0.0 without any; rounds whose term is not listed count nowhere; a rejected date gives the first such round's error |
| ProductionReport.AsWrittenBarsMissRound | genomstromning/production.py:113-121 | as written, a round starting in a year ending in 00-09 has a term no bar shows |
| ProductionReport.AsWrittenBarsCounterexample | genomstromning/production.py:155-165 | for a course with one round starting in a year ending in 00-09 inside the chart's years, every bar as written is 0.0, while the padded enumeration's bar of that term holds the round's HÅP |
| ProductionReport.HapInSingle | genomstromning/production.py:155-162 | with one round, its term's total is its HÅP and every other term's is 0.0 |
| ProductionReport.HapInNonNegative | genomstromning/production.py:155-162 | without negative HÅP, no term's total is negative |
| ProductionReport.HapInCountsRound | genomstromning/production.py:155-162 | without negative HÅP, a term's total is at least the HÅP of each round starting in it |
| ProductionReport.PaddedBarsCarryRounds | genomstromning/production.py:113-121 | with the corrected enumeration and no negative HÅP, every round whose ISO start date lies in the chart's years shows in the bar of its term, which is at least its HÅP |

## Left out

- File opening and reading. Each file is the sequence of its lines.
- The `date.today()` default of the cutoff. The cutoff is a parameter.
- The `print` to stderr in `colors_and_hatches_by_course`.
- Argument parsing, the `main` drivers and all chart drawing. This covers `create_student_bars`, `create_histogram`, `make_bar_diagrams_with_subplots`, the plotting half of `make_bar_diagrams`, `colors_and_hatches` (which reads matplotlib's settings) and `list_course_production`, which only prints.
- `read_nya_merits`, an unpack of nine fields per line around `parse_merits`.
- `read_personnummer`, whose error path calls `logging` without importing it.
- genomstromning/merit.py, genomstromning/produktion.py and setup.py are not part of this model.
- Floating point. Credits and HÅP are exact reals, so rounding in sums is not modelled.
- The model does not distinguish Python's integer `0` start values from `0.0`.
- `float` and `int` accept plain decimal notation only. Exponents, `inf`/`nan`, `_` digit separators and non-ASCII digits are not modelled.
- `strip()` and `split()` use the ASCII and Latin-1 whitespace characters. Other Unicode whitespace is not modelled.
- The regular expressions' `\s` and `\d` likewise use those whitespace characters and ASCII digits.
- `date.fromisoformat` accepts only the `YYYY-MM-DD` form. Python 3.11 accepts more.
- Dict iteration order is left open.
- ProductionReport.SemesterProduction: models the chart as the code draws it, with `generate_semesters` as written. So for the years 2000-2009 its bars miss those years' rounds, as the finding below describes. The corrected enumeration is stated and proved apart from it, in `PaddedBarsCarryRounds`.
- Ranking.SortByTotalSpec: does not state that codes with equal totals keep their first-met order. Python's sort is stable and the insertion sort keeps that order too. But the first-met order follows the dict iteration order, which the model leaves open, so the result's order among ties is not stated.
- Aggregation.TallyCourses: tests whether the identifier is a student once per course rather than once per module. The test gives the same answer for every module.
- Aggregation.PerCourseSumsToScore: holds only for tables without negative credits. With a negative credit a course's total can fall to 0, and that course drops out of the ranking. For example, +5 and -5 in one course by two students give a total of 0, and that course then drops out.

Where the tool's documented behaviour and its code differ, the model follows the code:

- Only rows of fewer than five fields are skipped silently. A result row that is not late but lacks the module field, a row with a real module code but no grade field, an unparsable date and unparsable credits all raise, and the read fails (`ResultFile.ClassifyFieldsFails`).
- A result row without a date field is kept without any date check.
- A production file without a header line is not an error. It yields no courses.

## Findings

| source | as written | input that shows it | evidently intended | confidence | as-written member | corrected member |
|---|---|---|---|---|---|---|
| genomstromning/production.py:119-121 | `generate_semesters` renders the year with `str(year)`, so years 0-9 become one digit (`VT5`), while `year_semester` (genomstromning/production.py:104) labels dates with two year digits (`VT05`) | a round starting 2005-03-01 with the year range 5 to 5: its label `VT05` is not among `VT5`, `ST5`, `HT5`, so its HÅP is shown in no bar | years rendered with two digits, zero-padded, so every round of the range lands in a bar | not executed | Production.AsWrittenCounterexample, ProductionReport.AsWrittenBarsCounterexample (used by ProductionReport.SemesterProduction) | Production.GeneratedCoversDates, ProductionReport.PaddedBarsCarryRounds |
