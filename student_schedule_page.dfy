/** The student exam-schedule page, student_schedule.php: getExamSchedule
    (lines 42-78) reads the saved suggestion into a course-to-date map or an
    error map, and the search (lines 94-136) matches the student's enrolled
    courses against it and sorts the matches by date. */
module StudentSchedulePage {
  import opened Text
  import opened Wrappers
  import opened Sorting
  import opened CourseDates

  /** What the result file offers the page: nothing at all, or a decoded
      file whose "suggestion" is a string, or is missing, null or the whole
      file failed to decode (None). */
  datatype ScheduleFile = Missing | Present(suggestion: Option<string>)

  const NotFoundMessage := "Exam schedule file not found. Please generate a schedule first."
  const NoScheduleMessage := "No valid exam schedule found. Please generate a schedule first."

  /** The map getExamSchedule returns. */
  function ScheduleOf(file: ScheduleFile): map<string, string> {
    match file
    case Missing => map["error" := NotFoundMessage]
    case Present(None) => map["error" := NoScheduleMessage]
    case Present(Some(text)) => CourseDatesOf(Split(text, '\n'), IsPhpSpace)
  }

  /** Lines 42-78. */
  method GetExamSchedule(file: ScheduleFile) returns (schedule: map<string, string>)
    ensures schedule == ScheduleOf(file)
  {
    if file.Missing? {
      return map["error" := NotFoundMessage];
    }
    if file.suggestion.None? {
      return map["error" := NoScheduleMessage];
    }
    schedule := ParseCourseDates(file.suggestion.value, IsPhpSpace);
  }

  /** What a search leaves in $search_error and $student_exams. */
  datatype Search =
    | NoSearch
    | SearchError(message: string)
    | Found(exams: seq<Exam>)

  /** Lines 94-136 once the student id has been read from the request: the
      database connection and the student lookup are inputs. An "error" key
      in the map stops the search, whether getExamSchedule put it there or a
      suggestion line carried "error" as its course. */
  function SearchOf(studentId: string, connectError: Option<string>, studentKnown: bool,
                    courses: seq<Course>, file: ScheduleFile): (search: Search)
    ensures search.NoSearch? <==> PhpEmpty(studentId)
    ensures search.Found? ==> connectError.None? && studentKnown && "error" !in ScheduleOf(file)
  {
    if PhpEmpty(studentId) then NoSearch
    else if connectError.Some? then SearchError("Database connection failed: " + connectError.value)
    else if !studentKnown then SearchError("Student with ID '" + studentId + "' not found.")
    else
      var schedule := ScheduleOf(file);
      if "error" in schedule then SearchError(schedule["error"])
      else Found(StudentExams(courses, schedule))
  }

  method SearchExams(studentId: string, connectError: Option<string>, studentKnown: bool,
                     courses: seq<Course>, file: ScheduleFile) returns (result: Search)
    ensures result == SearchOf(studentId, connectError, studentKnown, courses, file)
  {
    if PhpEmpty(studentId) {
      return NoSearch;
    }
    if connectError.Some? {
      return SearchError("Database connection failed: " + connectError.value);
    }
    if !studentKnown {
      return SearchError("Student with ID '" + studentId + "' not found.");
    }
    var schedule := GetExamSchedule(file);
    if "error" in schedule {
      result := SearchError(schedule["error"]);
    } else {
      var exams, _ := MatchExams(courses, schedule);
      result := Found(exams);
    }
  }

  /** A missing file or a file without a suggestion makes the search report
      the matching message and list no exams. */
  lemma ScheduleErrorsStopSearch(studentId: string, courses: seq<Course>, file: ScheduleFile)
    requires !PhpEmpty(studentId)
    requires file.Missing? || file.suggestion.None?
    ensures SearchOf(studentId, None, true, courses, file) ==
      SearchError(if file.Missing? then NotFoundMessage else NoScheduleMessage)
  {
  }

  /** For a parsed suggestion without an "error" course, the search finds
      exactly the enrolled courses that have a date, sorted by date, with
      exams on the same date in enrollment order. */
  lemma FoundExams(studentId: string, courses: seq<Course>, text: string)
    requires !PhpEmpty(studentId)
    requires "error" !in CourseDatesOf(Split(text, '\n'), IsPhpSpace)
    ensures var r := SearchOf(studentId, None, true, courses, Present(Some(text)));
      var schedule := CourseDatesOf(Split(text, '\n'), IsPhpSpace);
      && r.Found?
      && (forall e :: e in r.exams <==> ExamOf(courses, schedule, e))
      && SortedBy(r.exams, ExamDate)
      && forall d :: WithKey(r.exams, ExamDate, d) == WithKey(Matches(courses, schedule), ExamDate, d)
  {
    var schedule := CourseDatesOf(Split(text, '\n'), IsPhpSpace);
    StudentExamsExactly(courses, schedule);
    StudentExamsSorted(courses, schedule);
  }

  /** A suggestion line whose course is "error" turns its date into the
      search error: the page then reports "2024-08-20" instead of listing
      the student's exams. */
  lemma ErrorCourseMasquerades(studentId: string, courses: seq<Course>, text: string)
    requires !PhpEmpty(studentId)
    requires text == "1. 2024-08-20: error"
    ensures SearchOf(studentId, None, true, courses, Present(Some(text))) == SearchError("2024-08-20")
  {
    ErrorLineSchedule(text);
  }

  lemma ErrorLineSchedule(line: string)
    requires line == "1. 2024-08-20: error"
    ensures CourseDatesOf(Split(line, '\n'), IsPhpSpace) == map["error" := "2024-08-20"]
  {
    assert '\n' !in line;
    SingleLine(line);
    ErrorLineEntry(line, IsPhpSpace);
    SingleLineDates(line, IsPhpSpace);
  }

  lemma SingleLine(line: string)
    requires '\n' !in line
    ensures Split(line, '\n') == [line]
  {
    SplitJoin([line], '\n');
  }

  lemma SingleLineDates(line: string, sp: char -> bool)
    requires LineEntry(line, sp).Some?
    ensures CourseDatesOf([line], sp) == map[LineEntry(line, sp).value.0 := LineEntry(line, sp).value.1]
  {
    var es := Entries([line], sp);
    var e := LineEntry(line, sp).value;
    assert es == [Some(e)];
    assert es[..0] == [];
    assert Assign(es) == Assign(es[..0])[e.0 := e.1];
  }

  lemma ErrorLineEntry(line: string, sp: char -> bool)
    requires line == "1. 2024-08-20: error"
    requires sp(' ') && !sp('1') && !sp('0') && !sp('2') && !sp('e') && !sp('r')
    ensures LineEntry(line, sp) == Some(("error", "2024-08-20"))
  {
    ErrorColon(line);
    ExampleDot();
    ErrorTrims(sp);
  }

  lemma ErrorColon(line: string)
    requires line == "1. 2024-08-20: error"
    ensures ':' in line && SplitFirst(line, ':') == ("1. 2024-08-20", " error")
  {
    assert line == "1. 2024-08-20" + [':'] + " error";
    SplitFirstAt(line, ':', "1. 2024-08-20", " error");
  }

  lemma ErrorTrims(sp: char -> bool)
    requires sp(' ') && !sp('1') && !sp('0') && !sp('2') && !sp('e') && !sp('r')
    ensures TrimBy("1. 2024-08-20", sp) == "1. 2024-08-20"
    ensures TrimBy(" 2024-08-20", sp) == "2024-08-20"
    ensures TrimBy(" error", sp) == "error"
  {
    TrimByNoop("1. 2024-08-20", sp);
    TrimOneLeading(" 2024-08-20", sp);
    TrimOneLeading(" error", sp);
  }

  /** The search as evidently intended: only a failed load stops it, and a
      parsed suggestion always yields its matches. */
  function IntendedSearchOf(studentId: string, connectError: Option<string>, studentKnown: bool,
                            courses: seq<Course>, file: ScheduleFile): Search {
    if PhpEmpty(studentId) then NoSearch
    else if connectError.Some? then SearchError("Database connection failed: " + connectError.value)
    else if !studentKnown then SearchError("Student with ID '" + studentId + "' not found.")
    else match file
      case Missing => SearchError(NotFoundMessage)
      case Present(None) => SearchError(NoScheduleMessage)
      case Present(Some(text)) => Found(StudentExams(courses, CourseDatesOf(Split(text, '\n'), IsPhpSpace)))
  }

  /** Under the intended search every parsed suggestion lists exactly the
      enrolled courses that have a date, sorted by date, whatever courses
      the suggestion names; it agrees with the page whenever no course is
      called "error". */
  lemma IntendedSearchFinds(studentId: string, courses: seq<Course>, text: string)
    requires !PhpEmpty(studentId)
    ensures var r := IntendedSearchOf(studentId, None, true, courses, Present(Some(text)));
      var schedule := CourseDatesOf(Split(text, '\n'), IsPhpSpace);
      && r.Found?
      && (forall e :: e in r.exams <==> ExamOf(courses, schedule, e))
      && SortedBy(r.exams, ExamDate)
    ensures "error" !in CourseDatesOf(Split(text, '\n'), IsPhpSpace) ==>
      IntendedSearchOf(studentId, None, true, courses, Present(Some(text)))
        == SearchOf(studentId, None, true, courses, Present(Some(text)))
  {
    IntendedSearchLists(studentId, courses, text);
    IntendedSearchAgrees(studentId, courses, text);
  }

  lemma IntendedSearchLists(studentId: string, courses: seq<Course>, text: string)
    requires !PhpEmpty(studentId)
    ensures var r := IntendedSearchOf(studentId, None, true, courses, Present(Some(text)));
      var schedule := CourseDatesOf(Split(text, '\n'), IsPhpSpace);
      && r.Found?
      && (forall e :: e in r.exams <==> ExamOf(courses, schedule, e))
      && SortedBy(r.exams, ExamDate)
  {
    var schedule := CourseDatesOf(Split(text, '\n'), IsPhpSpace);
    assert IntendedSearchOf(studentId, None, true, courses, Present(Some(text)))
      == Found(StudentExams(courses, schedule));
    ExamsListed(courses, schedule);
  }

  /** The exam list for any course-date map: exactly the enrolled courses
      that have a date, sorted by date. */
  lemma ExamsListed(courses: seq<Course>, schedule: map<string, string>)
    ensures forall e :: e in StudentExams(courses, schedule) <==> ExamOf(courses, schedule, e)
    ensures SortedBy(StudentExams(courses, schedule), ExamDate)
  {
    StudentExamsExactly(courses, schedule);
    StudentExamsSorted(courses, schedule);
  }

  lemma IntendedSearchAgrees(studentId: string, courses: seq<Course>, text: string)
    requires !PhpEmpty(studentId)
    ensures "error" !in CourseDatesOf(Split(text, '\n'), IsPhpSpace) ==>
      IntendedSearchOf(studentId, None, true, courses, Present(Some(text)))
        == SearchOf(studentId, None, true, courses, Present(Some(text)))
  {
  }
}
