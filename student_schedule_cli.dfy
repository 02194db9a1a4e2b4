/** The command-line exam schedule, process/student_schedule.py:
    get_exam_schedule (lines 59-100) reads the saved suggestion into a
    course-to-date map or nothing, and display_student_exam_schedule (lines
    102-154) joins the student's enrolled courses with it, notes the courses
    without a date and sorts the exams by date. */
module StudentScheduleCli {
  import opened Text
  import opened Wrappers
  import opened Sorting
  import opened CourseDates

  /** What the result file offers: a string "suggestion", or nothing usable
      (file missing, invalid JSON, no "suggestion" key, or a value whose
      parsing raises). */
  datatype ScheduleFile = Unavailable | Suggestion(text: string)

  /** The value get_exam_schedule returns. */
  function ScheduleOf(file: ScheduleFile): Option<map<string, string>> {
    match file
    case Unavailable => None
    case Suggestion(text) => Some(CourseDatesOf(Split(text, '\n'), IsPySpace))
  }

  /** Lines 59-100. */
  method GetExamSchedule(file: ScheduleFile) returns (schedule: Option<map<string, string>>)
    ensures schedule == ScheduleOf(file)
  {
    match file
    case Unavailable =>
      schedule := None;
    case Suggestion(text) =>
      var parsed := ParseCourseDates(text, IsPySpace);
      schedule := Some(parsed);
  }

  /** What display_student_exam_schedule reports: False, or True after
      listing the exams and the notes for courses without a date. */
  datatype Display =
    | NotShown
    | Shown(exams: seq<Exam>, noted: seq<Course>)

  /** Lines 102-154 with the student lookup and the enrollments as inputs.
      An unknown student, no enrollments, or a schedule that is None or
      empty stop before anything is listed. */
  function DisplayOf(studentKnown: bool, courses: seq<Course>, file: ScheduleFile): (d: Display)
    ensures d.Shown? ==> studentKnown && courses != [] && ScheduleOf(file).Some? && ScheduleOf(file).value != map[]
  {
    if !studentKnown || courses == [] then NotShown
    else match ScheduleOf(file)
      case None => NotShown
      case Some(schedule) =>
        if schedule == map[] then NotShown
        else Shown(StudentExams(courses, schedule), Unmatched(courses, schedule))
  }

  method DisplayStudentExamSchedule(studentKnown: bool, courses: seq<Course>, file: ScheduleFile)
      returns (display: Display)
    ensures display == DisplayOf(studentKnown, courses, file)
  {
    if !studentKnown {
      return NotShown;
    }
    if courses == [] {
      return NotShown;
    }
    var schedule := GetExamSchedule(file);
    if schedule.None? || schedule.value == map[] {
      return NotShown;
    }
    var exams, noted := MatchExams(courses, schedule.value);
    display := Shown(exams, noted);
  }

  /** The listing appears exactly when the student is known, has courses,
      and the suggestion gives a non-empty map. */
  lemma ShownExactly(studentKnown: bool, courses: seq<Course>, file: ScheduleFile)
    ensures DisplayOf(studentKnown, courses, file).Shown? <==>
      studentKnown && courses != [] && file.Suggestion? &&
      CourseDatesOf(Split(file.text, '\n'), IsPySpace) != map[]
  {
  }

  /** When listed, every enrolled course is either an exam, with its mapped
      date, or a note, never both. */
  lemma ExamOrNote(courses: seq<Course>, text: string)
    requires courses != [] && CourseDatesOf(Split(text, '\n'), IsPySpace) != map[]
    ensures var d := DisplayOf(true, courses, Suggestion(text));
      var schedule := CourseDatesOf(Split(text, '\n'), IsPySpace);
      && d.Shown?
      && (forall e :: e in d.exams <==> ExamOf(courses, schedule, e))
      && (forall c :: c in d.noted <==> c in courses && c.code !in schedule)
      && |d.exams| + |d.noted| == |courses|
  {
    var schedule := CourseDatesOf(Split(text, '\n'), IsPySpace);
    assert DisplayOf(true, courses, Suggestion(text))
        == Shown(StudentExams(courses, schedule), Unmatched(courses, schedule));
    MatchesExactly(courses, schedule);
    StudentExamsExactly(courses, schedule);
  }

  /** The listed exams are ascending by date, and exams on the same date
      stay in enrollment order (list.sort is stable). */
  lemma ExamsByDate(courses: seq<Course>, text: string)
    requires courses != [] && CourseDatesOf(Split(text, '\n'), IsPySpace) != map[]
    ensures var d := DisplayOf(true, courses, Suggestion(text));
      var schedule := CourseDatesOf(Split(text, '\n'), IsPySpace);
      && d.Shown?
      && SortedBy(d.exams, ExamDate)
      && forall day :: WithKey(d.exams, ExamDate, day) == WithKey(Matches(courses, schedule), ExamDate, day)
  {
    var schedule := CourseDatesOf(Split(text, '\n'), IsPySpace);
    assert DisplayOf(true, courses, Suggestion(text))
        == Shown(StudentExams(courses, schedule), Unmatched(courses, schedule));
    StudentExamsSorted(courses, schedule);
  }
}
