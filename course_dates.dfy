/** The split-at-first-colon reading of a saved suggestion that
    student_schedule.php (lines 55-75) and process/student_schedule.py
    (lines 75-89) share, and the join of a student's enrolled courses with
    the resulting course-to-date map, sorted by date (student_schedule.php
    lines 116-131, process/student_schedule.py lines 127-141). The two sites
    differ only in what their trim removes, so the whitespace class is a
    parameter: IsPhpSpace for trim(), IsPySpace for str.strip(). */
module CourseDates {
  import opened Text
  import opened Wrappers
  import opened Sorting

  /** One line of the suggestion read as "numbering. date: course": the
      course is everything after the first colon, trimmed; the date is what
      precedes it, trimmed, with everything up to the first "." removed and
      trimmed again. Lines without a colon, and "Study Day" lines, give
      nothing. */
  function LineEntry(line: string, sp: char -> bool): (e: Option<(string, string)>)
    ensures e.Some? ==> ':' in line && e.value.0 != "Study Day"
    ensures e.Some? ==> e.value.0 == TrimBy(SplitFirst(line, ':').1, sp)
  {
    if ':' !in line then None
    else
      var (head, tail) := SplitFirst(line, ':');
      var stamp := TrimBy(head, sp);
      var date := if '.' in stamp then TrimBy(SplitFirst(stamp, '.').1, sp) else stamp;
      var course := TrimBy(tail, sp);
      if course == "Study Day" then None else Some((course, date))
  }

  /** The course and the date of an entry are already trimmed. */
  lemma LineEntryTrimmed(line: string, sp: char -> bool)
    requires LineEntry(line, sp).Some?
    ensures var (course, date) := LineEntry(line, sp).value;
      TrimBy(course, sp) == course && TrimBy(date, sp) == date
  {
    var (head, tail) := SplitFirst(line, ':');
    var stamp := TrimBy(head, sp);
    TrimByIdempotent(head, sp);
    TrimByIdempotent(tail, sp);
    if '.' in stamp {
      TrimByIdempotent(SplitFirst(stamp, '.').1, sp);
    }
  }

  /** What every line of the suggestion gives, in order. */
  function Entries(lines: seq<string>, sp: char -> bool): (es: seq<Option<(string, string)>>)
    ensures |es| == |lines|
    ensures forall i :: 0 <= i < |lines| ==> es[i] == LineEntry(lines[i], sp)
  {
    seq(|lines|, i requires 0 <= i < |lines| => LineEntry(lines[i], sp))
  }

  /** The course-to-date map after the entries in order; a later entry for
      the same course overwrites the earlier date. */
  function Assign(es: seq<Option<(string, string)>>): map<string, string>
    decreases |es|
  {
    if es == [] then map[]
    else
      var m := Assign(es[..|es| - 1]);
      match es[|es| - 1]
      case Some((course, date)) => m[course := date]
      case None => m
  }

  /** $exam_schedule / exam_schedule after the loop over lines. */
  function CourseDatesOf(lines: seq<string>, sp: char -> bool): map<string, string> {
    Assign(Entries(lines, sp))
  }

  /** The date of the last entry naming course, if any. */
  function LastDate(es: seq<Option<(string, string)>>, course: string): Option<string>
    decreases |es|
  {
    if es == [] then None
    else match es[|es| - 1]
      case Some((c, date)) =>
        if c == course then Some(date) else LastDate(es[..|es| - 1], course)
      case None => LastDate(es[..|es| - 1], course)
  }

  /** The map holds a course exactly when LastDate finds one, with that date. */
  lemma {:induction false} AssignLast(es: seq<Option<(string, string)>>, course: string)
    ensures course in Assign(es) <==> LastDate(es, course).Some?
    ensures course in Assign(es) ==> Assign(es)[course] == LastDate(es, course).value
    decreases |es|
  {
    if es != [] {
      AssignLast(es[..|es| - 1], course);
    }
  }

  /** LastDate finds a date exactly when some entry names the course. */
  lemma {:induction false} LastDateExists(es: seq<Option<(string, string)>>, course: string)
    ensures LastDate(es, course).Some? <==>
      exists i :: 0 <= i < |es| && es[i].Some? && es[i].value.0 == course
    decreases |es|
  {
    if es != [] {
      var init := es[..|es| - 1];
      LastDateExists(init, course);
      if exists i :: 0 <= i < |es| && es[i].Some? && es[i].value.0 == course {
        var i :| 0 <= i < |es| && es[i].Some? && es[i].value.0 == course;
        if i < |init| {
          assert init[i] == es[i];
        }
      }
      if LastDate(init, course).Some? {
        var i :| 0 <= i < |init| && init[i].Some? && init[i].value.0 == course;
        assert es[i] == init[i];
      }
    }
  }

  /** A course is a key exactly when some line names it, and it maps to the
      date on the last line naming it. */
  lemma LastLineWins(lines: seq<string>, sp: char -> bool, course: string)
    ensures course in CourseDatesOf(lines, sp) <==>
      exists i :: 0 <= i < |lines| && LineEntry(lines[i], sp).Some? && LineEntry(lines[i], sp).value.0 == course
    ensures course in CourseDatesOf(lines, sp) ==>
      LastDate(Entries(lines, sp), course) == Some(CourseDatesOf(lines, sp)[course])
  {
    var es := Entries(lines, sp);
    AssignLast(es, course);
    LastDateExists(es, course);
    if course in CourseDatesOf(lines, sp) {
      var i :| 0 <= i < |es| && es[i].Some? && es[i].value.0 == course;
      assert LineEntry(lines[i], sp) == es[i];
    }
    if exists i :: 0 <= i < |lines| && LineEntry(lines[i], sp).Some? && LineEntry(lines[i], sp).value.0 == course {
      var i :| 0 <= i < |lines| && LineEntry(lines[i], sp).Some? && LineEntry(lines[i], sp).value.0 == course;
      assert es[i] == LineEntry(lines[i], sp);
    }
  }

  /** No entry names "Study Day". */
  lemma NoStudyDayEntry(line: string, sp: char -> bool)
    ensures LineEntry(line, sp).Some? ==> LineEntry(line, sp).value.0 != "Study Day"
  {
  }

  lemma {:induction false} AssignWithout(es: seq<Option<(string, string)>>, course: string)
    requires forall i :: 0 <= i < |es| && es[i].Some? ==> es[i].value.0 != course
    ensures course !in Assign(es)
    decreases |es|
  {
    if es != [] {
      AssignWithout(es[..|es| - 1], course);
    }
  }

  /** "Study Day" lines are skipped, so it is never a course. */
  lemma StudyDayNeverKey(lines: seq<string>, sp: char -> bool)
    ensures "Study Day" !in CourseDatesOf(lines, sp)
  {
    var es := Entries(lines, sp);
    forall i | 0 <= i < |es| && es[i].Some? ensures es[i].value.0 != "Study Day" {
      NoStudyDayEntry(lines[i], sp);
    }
    AssignWithout(es, "Study Day");
  }

  lemma AssignSnoc(es: seq<Option<(string, string)>>, i: nat)
    requires i < |es|
    ensures Assign(es[..i + 1]) ==
      match es[i] case Some((course, date)) => Assign(es[..i])[course := date] case None => Assign(es[..i])
  {
    assert es[..i + 1][..i] == es[..i];
  }

  /** The loops of student_schedule.php:57-75 and
      process/student_schedule.py:75-89 over the lines of the suggestion. */
  method ParseCourseDates(suggestion: string, sp: char -> bool) returns (schedule: map<string, string>)
    ensures schedule == CourseDatesOf(Split(suggestion, '\n'), sp)
  {
    var lines := Split(suggestion, '\n');
    ghost var es := Entries(lines, sp);
    schedule := map[];
    var i := 0;
    while i < |lines|
      invariant 0 <= i <= |lines|
      invariant schedule == Assign(es[..i])
    {
      var line := lines[i];
      AssignSnoc(es, i);
      if ':' in line {
        var (head, tail) := SplitFirst(line, ':');
        var date := TrimBy(head, sp);
        if '.' in date {
          date := TrimBy(SplitFirst(date, '.').1, sp);
        }
        var course := TrimBy(tail, sp);
        if course != "Study Day" {
          schedule := schedule[course := date];
        }
      }
      i := i + 1;
    }
    assert es[..|lines|] == es;
  }

  /** SplitFirst cuts at the first separator. */
  lemma SplitFirstAt(s: string, sep: char, a: string, b: string)
    requires s == a + [sep] + b && sep !in a
    ensures sep in s && SplitFirst(s, sep) == (a, b)
  {
    assert s[|a|] == sep;
    assert forall k :: 0 <= k < |a| ==> s[k] == a[k];
    var i := FirstIndex(s, sep);
    assert i == |a|;
    assert s[..i] == a;
    assert s[i + 1..] == b;
  }

  /** Trimming a string that has one class character in front and none at
      either end otherwise drops just that character. */
  lemma TrimOneLeading(s: string, sp: char -> bool)
    requires |s| >= 2 && sp(s[0]) && !sp(s[1]) && !sp(s[|s| - 1])
    ensures TrimBy(s, sp) == s[1..]
  {
    assert LeadLen(s[1..], sp) == 0;
    assert LeadLen(s, sp) == 1;
    assert TrailLen(s, sp) == 0;
  }

  /** The whole text after the colon is the key: a day listing two courses
      is stored under "CS101, CS102", which no single enrolled code equals. */
  lemma CommaListExample(sp: char -> bool)
    requires sp(' ') && !sp('1') && !sp('0') && !sp('2') && !sp('C')
    ensures LineEntry("1. 2024-08-20: CS101, CS102", sp) == Some(("CS101, CS102", "2024-08-20"))
  {
    ExampleColon();
    ExampleDot();
    ExampleTrims(sp);
    assert "CS101, CS102" != "Study Day" by {
      assert "CS101, CS102"[0] != "Study Day"[0];
    }
  }

  lemma ExampleColon()
    ensures ':' in "1. 2024-08-20: CS101, CS102"
    ensures SplitFirst("1. 2024-08-20: CS101, CS102", ':') == ("1. 2024-08-20", " CS101, CS102")
  {
    assert "1. 2024-08-20: CS101, CS102" == "1. 2024-08-20" + [':'] + " CS101, CS102";
    SplitFirstAt("1. 2024-08-20: CS101, CS102", ':', "1. 2024-08-20", " CS101, CS102");
  }

  lemma ExampleDot()
    ensures '.' in "1. 2024-08-20"
    ensures SplitFirst("1. 2024-08-20", '.') == ("1", " 2024-08-20")
  {
    assert "1. 2024-08-20" == "1" + ['.'] + " 2024-08-20";
    SplitFirstAt("1. 2024-08-20", '.', "1", " 2024-08-20");
  }

  lemma ExampleTrims(sp: char -> bool)
    requires sp(' ') && !sp('1') && !sp('0') && !sp('2') && !sp('C')
    ensures TrimBy("1. 2024-08-20", sp) == "1. 2024-08-20"
    ensures TrimBy(" 2024-08-20", sp) == "2024-08-20"
    ensures TrimBy(" CS101, CS102", sp) == "CS101, CS102"
  {
    TrimByNoop("1. 2024-08-20", sp);
    TrimOneLeading(" 2024-08-20", sp);
    TrimOneLeading(" CS101, CS102", sp);
  }

  /** An enrolled course as the database returns it. */
  datatype Course = Course(code: string, name: string, level: string)

  /** One row of the student's exam list. */
  datatype Exam = Exam(date: string, code: string, name: string, level: string)

  function ExamDate(e: Exam): string { e.date }

  /** The enrolled courses that have a date, in enrollment order, each with
      its date. */
  function Matches(courses: seq<Course>, schedule: map<string, string>): seq<Exam>
    decreases |courses|
  {
    if courses == [] then []
    else
      var c := courses[|courses| - 1];
      Matches(courses[..|courses| - 1], schedule)
        + (if c.code in schedule then [Exam(schedule[c.code], c.code, c.name, c.level)] else [])
  }

  /** The enrolled courses without a date, in enrollment order. */
  function Unmatched(courses: seq<Course>, schedule: map<string, string>): seq<Course>
    decreases |courses|
  {
    if courses == [] then []
    else
      var c := courses[|courses| - 1];
      Unmatched(courses[..|courses| - 1], schedule) + (if c.code in schedule then [] else [c])
  }

  /** The exam row of an enrolled course that has a date. */
  predicate ExamOf(courses: seq<Course>, schedule: map<string, string>, e: Exam) {
    exists i :: 0 <= i < |courses| && courses[i].code in schedule &&
      e == Exam(schedule[courses[i].code], courses[i].code, courses[i].name, courses[i].level)
  }

  /** An exam row exists exactly for each enrolled course whose code is a
      key, carrying the mapped date and the course's name and level; a
      course without a date is listed as unmatched and never as an exam. */
  lemma {:induction false} MatchesExactly(courses: seq<Course>, schedule: map<string, string>)
    ensures forall e :: e in Matches(courses, schedule) <==> ExamOf(courses, schedule, e)
    ensures forall c :: c in Unmatched(courses, schedule) <==> c in courses && c.code !in schedule
    ensures |Matches(courses, schedule)| + |Unmatched(courses, schedule)| == |courses|
    decreases |courses|
  {
    if courses != [] {
      var init := courses[..|courses| - 1];
      var c := courses[|courses| - 1];
      MatchesExactly(init, schedule);
      assert courses == init + [c];
      forall e ensures e in Matches(courses, schedule) <==> ExamOf(courses, schedule, e) {
        if ExamOf(courses, schedule, e) {
          var i :| 0 <= i < |courses| && courses[i].code in schedule &&
            e == Exam(schedule[courses[i].code], courses[i].code, courses[i].name, courses[i].level);
          if i < |init| {
            assert init[i] == courses[i];
          }
        }
        if ExamOf(init, schedule, e) {
          var i :| 0 <= i < |init| && init[i].code in schedule &&
            e == Exam(schedule[init[i].code], init[i].code, init[i].name, init[i].level);
          assert courses[i] == init[i];
        }
      }
    }
  }

  /** The student's exams: the matches sorted by date. */
  function StudentExams(courses: seq<Course>, schedule: map<string, string>): seq<Exam> {
    SortBy(Matches(courses, schedule), ExamDate)
  }

  /** The exam list holds exactly the matches, ascending by date, and exams
      on the same date stay in enrollment order. */
  lemma StudentExamsSorted(courses: seq<Course>, schedule: map<string, string>)
    ensures multiset(StudentExams(courses, schedule)) == multiset(Matches(courses, schedule))
    ensures SortedBy(StudentExams(courses, schedule), ExamDate)
    ensures forall d :: WithKey(StudentExams(courses, schedule), ExamDate, d)
                     == WithKey(Matches(courses, schedule), ExamDate, d)
  {
    SortByCorrect(Matches(courses, schedule), ExamDate);
  }

  /** The exam list holds one row for each enrolled course with a date and
      nothing else; with the unmatched courses it accounts for every
      enrolled course. */
  lemma StudentExamsExactly(courses: seq<Course>, schedule: map<string, string>)
    ensures forall e :: e in StudentExams(courses, schedule) <==> ExamOf(courses, schedule, e)
    ensures |StudentExams(courses, schedule)| + |Unmatched(courses, schedule)| == |courses|
  {
    MatchesExactly(courses, schedule);
    SortByCorrect(Matches(courses, schedule), ExamDate);
    var r := StudentExams(courses, schedule);
    forall e ensures e in r <==> e in Matches(courses, schedule) {
      assert e in r <==> e in multiset(r);
    }
  }

  /** The loops of student_schedule.php:116-131 and
      process/student_schedule.py:125-141: match each enrolled course, then
      sort by date. */
  method MatchExams(courses: seq<Course>, schedule: map<string, string>)
      returns (exams: seq<Exam>, unmatched: seq<Course>)
    ensures exams == StudentExams(courses, schedule)
    ensures unmatched == Unmatched(courses, schedule)
  {
    exams, unmatched := [], [];
    var i := 0;
    while i < |courses|
      invariant 0 <= i <= |courses|
      invariant exams == Matches(courses[..i], schedule)
      invariant unmatched == Unmatched(courses[..i], schedule)
    {
      var course := courses[i];
      assert courses[..i + 1][..i] == courses[..i];
      if course.code in schedule {
        exams := exams + [Exam(schedule[course.code], course.code, course.name, course.level)];
      } else {
        unmatched := unmatched + [course];
      }
      i := i + 1;
    }
    assert courses[..|courses|] == courses;
    exams := SortBy(exams, ExamDate);
  }
}
