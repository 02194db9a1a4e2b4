# Exam portal core, modelled in Dafny

This project models the two data-extraction engines of a small institutional
web portal, together with the Python script that prepares the exam period:

- **The sectioned-CSV analyser** (`analyze_csv.php`). It finds the marks section
  of a multi-table CSV export by an exact header match, checks the required
  columns, ends the section by its boundary rules, validates each row and
  aggregates the rows into overall and per-course statistics. The statistics
  are a score sum, a count, a histogram of the six grades A+, A, B, C, D and F,
  and an average. Courses are sorted by code.
- **The schedule-text extractors.**
  - Two saved-schedule pages read the generator's "suggestion" text line by
    line: `exam_schedule.php`, which builds a date-to-course-list map and
    calendar events with academic levels, and `exam_schedule_new.php`, which
    builds a list of date/payload records typed as course exam or study day.
    Both first load the result file and choose what to show.
  - The student pages join a student's enrolled courses against a
    course-to-date map read from the same text and sort the exams by date:
    `student_schedule.php` on the web and `process/student_schedule.py` on
    the command line.
- **The exam-period inputs** (`process/process_schedule.py`). These are the
  available exam days of a date range, without Fridays and holidays; the pairs
  of courses that share a student; and the pipeline that stops at the first
  step reporting an error.

Modules, leaf first:

- `Wrappers` and `Text`: `Option`, PHP/Python/PCRE whitespace classes, trimming,
  splitting, ASCII case, and code-point string order.
- `Sorting`: the stable sort by a string key that stands for PHP `usort` and
  Python `list.sort`.
- `CsvSection`, `MarkStats` and `MarksAnalyzer`: the analyser.
- `ScheduleLines` and `ScheduleSource`: the line patterns and the result-file
  dispatch shared by the two saved-schedule pages.
- `MasterSchedule`, `TypedSchedule` and `ScheduleSites`: the two pages and
  where they disagree.
- `CourseDates`, `StudentSchedulePage` and `StudentScheduleCli`: the student
  pages.
- `ExamPeriod`: the exam-period script.

Loops in the source are methods with loop invariants, each proved equal to a
specification function. The properties are lemmas about those functions.

Two behaviours of the source worth noting:

- `exam_schedule.php` does not treat "Study Day" specially. A line
  "2. 2024-08-21: Study Day" records the course list ["Study Day"] and gives a
  calendar event titled "Study Day". The typed page and the two student pages
  do single it out.
- The date-keyed list of `exam_schedule.php` keeps the order in which dates
  first appear, not chronological order.

## Model

| member | source | states |
|---|---|---|
| `Text.SplitJoin` | exam_schedule.php:308 | explode/split on one character inverts joining separator-free parts |
| `Text.Split` | exam_schedule.php:308 | explode on one character gives at least one piece, none holding the separator, and joining them gives the string back |
| `Text.SplitFirst` | student_schedule.php:60 | explode with limit 2 cuts at the first separator: the head holds no separator and head, separator and rest give the string |
| `Text.ToUpper` | analyze_csv.php:89 | defines strtoupper pointwise: same length, each ASCII letter upper-cased, other characters kept (the contract is the definition) |
| `Text.TrimByShape` | exam_schedule.php:299 | trim leaves the middle of the string, with no class character at either end, or nothing when every character is in the class |
| `Text.TrimByIdempotent` | exam_schedule.php:299 | trimming twice is trimming once |
| `Text.StrLeReflexive` | student_schedule.php:129-131 | every string is ordered before or equal to itself |
| `Text.StrLeTotal` | student_schedule.php:129-131 | the code-point order used for comparing dates and course codes is total |
| `Text.StrLeTransitive` | student_schedule.php:129-131 | that order is transitive |
| `Text.StrLeAntisymmetric` | process/process_schedule.py:140 | that order is antisymmetric, so sorting two distinct codes gives them in one fixed order |
| `Sorting.SortByCorrect` | student_schedule.php:129-131 | the stable sort returns a permutation, sorted by the key, and items with equal keys keep their input order |
| `Sorting.SortByDistinct` | analyze_csv.php:135 | sorting keeps the keys distinct when they were |
| `Sorting.SortByMembers` | student_schedule.php:129-131 | sorting neither adds nor drops an element |
| `CsvSection.DoubleQuotes` | analyze_csv.php:38 | doubling quotes never shortens a field and leaves a quote-free field alone |
| `CsvSection.UndoubleDouble` | analyze_csv.php:38 | undoubling the doubled quotes gives the field back |
| `CsvSection.QuoteFieldRoundTrip` | analyze_csv.php:38 | a re-quoted field is wrapped in quotes, and its inside reads back as the field |
| `CsvSection.HeaderIndex` | analyze_csv.php:40-45 | finds the first row whose re-quoted, comma-joined form equals the trimmed marks header, or none when no row does |
| `CsvSection.Columns` | analyze_csv.php:45 | defines the column names pointwise: each header field with spaces and quotes trimmed, one per field (the contract is the definition) |
| `CsvSection.RequiredColumnsMeaning` | analyze_csv.php:47 | the column check passes exactly when id, student_id, course_code, total and grade are all present |
| `CsvSection.EndsSection` | analyze_csv.php:56-64 | defines the row that ends the marks section; every row narrower than the header ends it, and a row as wide as the header with more than three cells never does |
| `CsvSection.SectionEnd` | analyze_csv.php:56-64 | the section ends at the first row that is narrower than the header, is a 3-field row with an all-upper-case first field, or is a 2-field row with a first field like 12s…25; no earlier row ends it |
| `CsvSection.SectionEndAt` | analyze_csv.php:56-64 | any position meeting those conditions is the section end |
| `CsvSection.NumericValue` | analyze_csv.php:81-88 | defines is_numeric together with the floatval value; a string it accepts holds at least one digit |
| `CsvSection.NumericDecimal` | analyze_csv.php:81 | every decimal numeral is numeric and has its own value |
| `CsvSection.NumericOfDigits` | analyze_csv.php:81 | a non-empty run of digits is numeric, and floatval gives it the value of its digits |
| `CsvSection.LastIndex` | analyze_csv.php:71 | array_combine keeps the last column carrying a repeated name |
| `CsvSection.ToRecord` | analyze_csv.php:78-90 | defines the keep-or-skip decision and the normalised record; a kept record has a non-empty student id and an already trimmed course code and grade |
| `CsvSection.ToRecordSpec` | analyze_csv.php:78-90 | a row is kept exactly when student_id, course_code and grade are non-empty under empty() and total is numeric; it keeps the trimmed code, the upper-cased trimmed grade and the total's value |
| `CsvSection.SectionRecordsSnoc` | analyze_csv.php:65-83 | one more section row adds its record when it has the header's width and passes validation, and nothing otherwise |
| `CsvSection.SectionRecordsCount` | analyze_csv.php:65-83 | the section yields exactly one record per valid row |
| `MarkStats.SlotOfLabels` | analyze_csv.php:95 | exactly the six grade labels have a histogram slot, each its own |
| `MarkStats.RecordCounts` | analyze_csv.php:95-97 | recording a listed grade raises only its slot by one; an unlisted grade leaves the histogram unchanged |
| `MarkStats.UnlistedCount` | analyze_csv.php:95-97 | counts the records with an unlisted grade; it is positive exactly when such a record exists |
| `MarkStats.BucketOfCounts` | analyze_csv.php:93-97 | a bucket counts every record, and its histogram counts exactly the records with a listed grade |
| `MarkStats.CodeIndex` | analyze_csv.php:100 | finds the bucket of a course code, or reports that none exists yet |
| `MarkStats.AggregateDescribes` | analyze_csv.php:99-111 | every record lands in the bucket of its course code, that bucket is the bucket of exactly that course's records, and the codes are distinct |
| `MarkStats.AggregateConserves` | analyze_csv.php:92-111 | the overall bucket is the bucket of all records and the sum of the course buckets, none of which is empty |
| `MarkStats.AggregateCovers` | analyze_csv.php:99-111 | every record's course code has a bucket |
| `MarkStats.FinalizeAverage` | analyze_csv.php:128-131 | the average times the count is the sum, and an empty bucket averages 0 |
| `MarkStats.SumResultsSorted` | analyze_csv.php:135 | ksort reorders the courses without changing their total |
| `MarksAnalyzer.Consumed` | analyze_csv.php:35 | defines how many rows the loop reads: at most limitRows, none when the limit is not positive (the contract is the definition) |
| `MarksAnalyzer.FinalizeAll` | analyze_csv.php:130-132 | defines the averaging pointwise: every course bucket gets its own average, in order (the contract is the definition) |
| `MarksAnalyzer.AggregateRow` | analyze_csv.php:65-111 | one section row updates the running statistics exactly as folding the row's record into them |
| `MarksAnalyzer.SectionRowStep` | analyze_csv.php:56-111 | a row after the header stops the scan exactly when it ends the section; otherwise the scan goes on with the row aggregated or skipped |
| `MarksAnalyzer.ScanMarks` | analyze_csv.php:35-112 | the loop over the rows computes the scan of the first limitRows rows |
| `MarksAnalyzer.Analyze` | analyze_csv.php:11-140 | defines the function's result; the read error comes exactly from an unreadable file, the open error exactly from a failed fopen, and a result with statistics has counted at least one valid row |
| `MarksAnalyzer.AnalyzeStudentData` | analyze_csv.php:30-135 | the whole function computes Analyze: file errors first, then the scan, then the two scan errors, the averages and the sorted course list |
| `MarksAnalyzer.AverageCourses` | analyze_csv.php:130-132 | the averaging loop computes FinalizeAll |
| `MarksAnalyzer.SumResultsFinalize` | analyze_csv.php:128-132 | averaging leaves the course statistics' total unchanged |
| `MarksAnalyzer.ReportedOrder` | analyze_csv.php:99-135 | the reported course list is sorted by code, holds no code twice, and adds up to the bucket of all records |
| `MarksAnalyzer.ReportedEntries` | analyze_csv.php:99-132 | each reported course entry is the averaged bucket of exactly that course's records, and none is empty |
| `MarksAnalyzer.ResultsCover` | analyze_csv.php:99-111 | a list holding the same entries as the averaged buckets names every record's course |
| `MarksAnalyzer.SortedCover` | analyze_csv.php:135 | after ksort every record's course code is still listed |
| `MarksAnalyzer.AnalyzedFromRecords` | analyze_csv.php:115-140 | a successful analysis reports the aggregation of the counted records, of which there is at least one |
| `MarksAnalyzer.ScannedRecords` | analyze_csv.php:56-111 | a scan that reaches the section aggregates exactly that section's records |
| `MarksAnalyzer.AnalyzedTotals` | analyze_csv.php:92-128 | on success the overall statistics are those of every counted record, with its average and the grade histogram of the listed grades |
| `MarksAnalyzer.AnalyzedCourses` | analyze_csv.php:99-135 | on success the course list is sorted by code with no code twice, each course's entry the averaged bucket of exactly its records |
| `MarksAnalyzer.HeaderNotFoundExactly` | analyze_csv.php:115-117 | "header not found" happens exactly when no row read equals the marks header |
| `MarksAnalyzer.BadColumnsExactly` | analyze_csv.php:42-50 | the header lookup reports missing columns exactly when the first matching row lacks a required column |
| `MarksAnalyzer.MissingColumnsExactly` | analyze_csv.php:42-50 | the analysis fails with missing columns exactly when the first row read that matches the header lacks one of the five columns |
| `MarksAnalyzer.MissingColumnsWhen` | analyze_csv.php:42-50 | the analysis fails with missing columns exactly when the located header lacks a required column |
| `MarksAnalyzer.NoValidRowsExactly` | analyze_csv.php:118-120 | once the header is found with its columns, "no valid data rows" happens exactly when no section row is valid |
| `MarksAnalyzer.NoValidRowsWhen` | analyze_csv.php:118-120 | "no valid data rows" happens exactly when the scan reached the section and counted nothing |
| `MarksAnalyzer.ScanCount` | analyze_csv.php:65-111 | a scan that reaches the section counts exactly its valid rows, and counts none exactly when no row is valid |
| `MarksAnalyzer.RecordsPerValidRow` | analyze_csv.php:80-94 | the count is the number of valid rows in the section |
| `MarksAnalyzer.RowsPastLimitIgnored` | analyze_csv.php:35 | rows after the first limitRows never change the result |
| `MarksAnalyzer.RowsPastDefaultLimitIgnored` | analyze_csv.php:11 | with the default limit of 10000, rows after the first 10000 never change the result |
| `ScheduleLines.SuggestionLines` | exam_schedule.php:294 | the lines are the trimmed suggestion cut at every newline, and joining them gives that trimmed text |
| `ScheduleLines.NumberedDateExactly` | exam_schedule.php:303 | the numbered-date prefix (digits, dot, spaces, a YYYY-MM-DD date) is found exactly in lines of that shape |
| `ScheduleLines.NumberedDateOf` | exam_schedule.php:303 | the date and remainder found are the only decomposition |
| `ScheduleLines.NumberedDateShape` | exam_schedule.php:303 | what the prefix match finds cuts the line into digits, a dot, spaces, the date and the rest |
| `ScheduleLines.NumberedKeptAsNote` | exam_schedule.php:325 | a line starting like an entry is never dropped by the note filter |
| `ScheduleLines.NotPreamble` | exam_schedule.php:325 | a line starting with a digit never starts with a dropped preamble phrase |
| `ScheduleSource.LoadResult` | exam_schedule.php:43-63 | loading gives the decoded value and no error exactly when the file decodes, and otherwise the matching message |
| `ScheduleSource.Dispatch` | exam_schedule.php:284-291 | defines what the panel shows; the load error is shown exactly when there is one that PHP treats as true, with its own text, and a suggestion is shown only when no error was saved |
| `ScheduleSource.LoadMessagesNonEmpty` | exam_schedule.php:284 | every load error message is neither "" nor "0", so `if ($load_error)` treats it as true |
| `ScheduleSource.DispatchExactly` | exam_schedule.php:284-291 | a failed load shows its message; otherwise a saved error wins over a suggestion, neither is an unexpected structure (lines 442-444), and a false-like result shows the fallback (lines 446-449) |
| `MasterSchedule.MasterEntry` | exam_schedule.php:303-305 | defines the entry pattern of line 303; an accepted line has a numbered date, its captured date has the 4-2-2 digit shape, and its payload is already trimmed |
| `MasterSchedule.DayCourses` | exam_schedule.php:305-321 | defines the course list of an entry; an empty payload gives no courses, and every listed course is non-empty and trimmed |
| `MasterSchedule.FilledMembers` | exam_schedule.php:308-310 | the kept course items are exactly the trimmed items that are truthy (not "" or "0") |
| `MasterSchedule.MapEachMembers` | exam_schedule.php:310 | array_map holds exactly the images of the items |
| `MasterSchedule.TruthyMembers` | exam_schedule.php:310 | array_filter keeps exactly the items that are not "" or "0" |
| `MasterSchedule.PutLookup` | exam_schedule.php:313 | after assigning a date, that date holds the new list and every other date is unchanged |
| `MasterSchedule.DateIndex` | exam_schedule.php:313 | finds the first position carrying a date, or none |
| `MasterSchedule.PutAt` | exam_schedule.php:313 | assignment replaces the list at the date's position, or appends a new date |
| `MasterSchedule.PutPlace` | exam_schedule.php:313-321 | assignment never duplicates a date, keeps an existing date in place and appends a new one at the end |
| `MasterSchedule.ParseLookup` | exam_schedule.php:298-322 | each date appears once and holds the course list of its last entry line |
| `MasterSchedule.NotesAppend` | exam_schedule.php:323-327 | notes keep input order: two runs of lines give the first run's notes followed by the second's |
| `MasterSchedule.NotesSnoc` | exam_schedule.php:323-327 | one more line appends its own note, if it gives one, after the notes so far |
| `MasterSchedule.NoteOfLine` | exam_schedule.php:299-327 | a single line gives itself trimmed as a note when it is a kept non-entry, and no note otherwise |
| `MasterSchedule.ParseSuggestion` | exam_schedule.php:294-329 | the parsing loop computes the date list and notes of the suggestion's lines |
| `MasterSchedule.ParseLine` | exam_schedule.php:298-327 | the loop body for one line is one step of the parse: the line's entry assigned, its note appended, or nothing |
| `MasterSchedule.LevelOf` | exam_schedule.php:378 | an event carries the stored level when there is one, and otherwise "Unknown" |
| `MasterSchedule.EventCount` | exam_schedule.php:375-387 | there is one event per listed course and none for an empty day |
| `MasterSchedule.EventsExactly` | exam_schedule.php:375-383 | an event exists exactly for each course of each day, titled with the course and dated with the day, carrying the course's level or "Unknown" when the level is absent or NULL |
| `MasterSchedule.BuildEvents` | exam_schedule.php:374-387 | the nested loops compute those events in order |
| `TypedSchedule.TypedEntryExactly` | exam_schedule_new.php:279-280 | a line is an entry exactly when its numbered date is followed by optional spaces, a colon, optional spaces and a non-space character; the payload is the trimmed rest |
| `TypedSchedule.TypedEntry` | exam_schedule_new.php:279-280 | defines the entry pattern of the newer page; an accepted line has a numbered date, its date has the 4-2-2 digit shape, and its payload is already trimmed |
| `TypedSchedule.TypedEntryOf` | exam_schedule_new.php:279-280 | a line of that shape is read as exactly that entry |
| `TypedSchedule.Kinds` | exam_schedule_new.php:275-286 | defines the classification pointwise: every line is classified, in order (the contract is the definition) |
| `TypedSchedule.ParseAppend` | exam_schedule_new.php:275-287 | records and notes keep input order across consecutive runs of lines |
| `TypedSchedule.ParseOneLine` | exam_schedule_new.php:276-286 | one entry line gives one record with its date and trimmed payload, and a kept note line gives itself trimmed |
| `TypedSchedule.ItemCount` | exam_schedule_new.php:280 | there is one record per entry line; repeated dates are not merged |
| `TypedSchedule.ItemsExactly` | exam_schedule_new.php:280 | a record exists exactly for each entry line, with that line's date and payload |
| `TypedSchedule.GatherItems` | exam_schedule_new.php:280 | the records gathered from the classified lines are exactly their entries |
| `TypedSchedule.ParseSuggestion` | exam_schedule_new.php:272-287 | the parsing loop computes the records and notes of the suggestion's lines |
| `TypedSchedule.ParseLine` | exam_schedule_new.php:275-286 | the loop body for one line is one step of the parse: a record or a note appended, or nothing |
| `TypedSchedule.ToEvent` | exam_schedule_new.php:303-311 | an event is titled with its record's payload and dated with its date, and is a study day exactly when the trimmed title is "Study Day" ignoring ASCII case |
| `TypedSchedule.Events` | exam_schedule_new.php:303-312 | defines array_map pointwise: one event per record, in order (the contract is the definition) |
| `TypedSchedule.EventsOfParsed` | exam_schedule_new.php:303-312 | each event has its record's payload as title and date as start, and is a study day exactly when the title is "Study Day" ignoring ASCII case |
| `TypedSchedule.EntryTrimmed` | exam_schedule_new.php:280 | an entry's payload is already trimmed |
| `TypedSchedule.StudyDayExample` | exam_schedule_new.php:306 | "STUDY DAY" and "study day" are study days and "CS101" is a course exam |
| `ScheduleSites.SameEntryWhenPayload` | exam_schedule_new.php:279 | an entry of exam_schedule.php with a non-empty payload is the same entry on the newer page |
| `ScheduleSites.EmptyPayloadDiffers` | exam_schedule.php:321 | a date followed by only a colon is an empty day on the older page (line 321) and a note on the newer one (exam_schedule_new.php:279) |
| `ScheduleSites.EmptyPayloadMaster` | exam_schedule.php:303-321 | a trimmed line whose numbered date is followed by just ":" is an entry with an empty payload on the older page |
| `ScheduleSites.EmptyPayloadTyped` | exam_schedule_new.php:279-285 | the same line is a note on the newer page |
| `ScheduleSites.KindNotBlank` | exam_schedule.php:299-327 | a trimmed line with a numbered date is never skipped as blank: each page takes it as its entry, or as a note when the filter keeps it |
| `ScheduleSites.SpaceBeforeColonDiffers` | exam_schedule_new.php:279 | a space before the colon makes an entry on the newer page and a note on the older one (exam_schedule.php:303) |
| `ScheduleSites.SpaceBeforeColonMaster` | exam_schedule.php:303 | a line with a space before the colon is a note on the older page |
| `ScheduleSites.EmptyPayloadExample` | exam_schedule.php:321 | "1. 2024-08-20:" is an empty day on one page and a note on the other |
| `ScheduleSites.SpaceBeforeColonExample` | exam_schedule_new.php:279 | "1. 2024-08-20 : CS101" is an entry only on the newer page |
| `ScheduleSites.CommaListExample` | exam_schedule.php:308 | "CS101, CS102" is the two courses CS101 and CS102 on the older page |
| `CourseDates.LineEntry` | student_schedule.php:59-72 | defines what one line gives; an entry needs a colon in the line, its course is the trimmed text after the first colon, and it is never "Study Day" |
| `CourseDates.LineEntryTrimmed` | student_schedule.php:60-72 | the course and the date of an entry are already trimmed |
| `CourseDates.Entries` | student_schedule.php:57-73 | defines the reading pointwise: every line of the suggestion is read, in order (the contract is the definition) |
| `CourseDates.AssignLast` | student_schedule.php:71 | the map holds a course exactly when some line names it, with the date of the last such line |
| `CourseDates.LastDateExists` | student_schedule.php:71 | a last date exists exactly when some line names the course |
| `CourseDates.LastLineWins` | student_schedule.php:57-75 | a course is a key exactly when a line names it, and maps to the date of the last line naming it |
| `CourseDates.NoStudyDayEntry` | student_schedule.php:70 | no line records the payload "Study Day" |
| `CourseDates.StudyDayNeverKey` | process/student_schedule.py:88-89 | "Study Day" is never a key |
| `CourseDates.ParseCourseDates` | process/student_schedule.py:75-89 | the loop over the lines builds that map |
| `CourseDates.CommaListExample` | student_schedule.php:68-71 | a day listing "CS101, CS102" stores that whole text as one key, which no single enrolled code matches |
| `CourseDates.MatchesExactly` | process/student_schedule.py:128-138 | an exam row exists exactly for each enrolled course with a date, carrying that date, name and level; the others are noted as having no date; the two add up to the enrolled courses |
| `CourseDates.StudentExamsSorted` | student_schedule.php:129-131 | the exam list is a permutation of the matches, ascending by date, with exams on one date in enrollment order |
| `CourseDates.StudentExamsExactly` | student_schedule.php:116-131 | the sorted exam list holds exactly the matched rows, and with the unmatched courses accounts for every enrolled course |
| `CourseDates.MatchExams` | process/student_schedule.py:127-141 | the matching loop and the sort compute the exam list and the unmatched courses |
| `StudentSchedulePage.GetExamSchedule` | student_schedule.php:42-78 | a missing file and a file without a suggestion give their error maps; otherwise the map read from the lines |
| `StudentSchedulePage.SearchOf` | student_schedule.php:103-131 | defines the search result; there is no search exactly when the id is empty, and exams are listed only after a successful connection, a known student and a schedule without an "error" key |
| `StudentSchedulePage.SearchExams` | student_schedule.php:96-136 | the search computes SearchOf: no search for an empty id, then the connection, student and schedule errors, then the sorted matches |
| `StudentSchedulePage.ScheduleErrorsStopSearch` | student_schedule.php:110-113 | a missing file or a missing suggestion reports its message |
| `StudentSchedulePage.FoundExams` | student_schedule.php:114-131 | without an "error" key the search finds exactly the enrolled courses with a date, sorted by date, stable on ties |
| `StudentSchedulePage.ExamsListed` | student_schedule.php:114-131 | for any course-to-date map the exam list holds exactly the enrolled courses with a date, sorted by date |
| `StudentSchedulePage.ErrorCourseMasquerades` | student_schedule.php:110-113 | the suggestion "1. 2024-08-20: error" makes the search report "2024-08-20" as an error |
| `StudentSchedulePage.IntendedSearchFinds` | student_schedule.php:110-131 | the corrected search always lists the matches of a parsed suggestion, and agrees with the page when no course is called "error" |
| `StudentSchedulePage.IntendedSearchLists` | student_schedule.php:110-131 | the corrected search lists exactly the matched exams of a parsed suggestion, sorted by date |
| `StudentSchedulePage.IntendedSearchAgrees` | student_schedule.php:110-113 | the corrected search equals the page's search when no course is called "error" |
| `StudentScheduleCli.GetExamSchedule` | process/student_schedule.py:59-100 | no usable file gives None; otherwise the map read from the lines |
| `StudentScheduleCli.DisplayOf` | process/student_schedule.py:100-154 | defines the display; exams are listed only for a known student with courses and a present, non-empty schedule |
| `StudentScheduleCli.DisplayStudentExamSchedule` | process/student_schedule.py:102-154 | the display computes DisplayOf: unknown student, no courses, or an empty or missing schedule show nothing |
| `StudentScheduleCli.ShownExactly` | process/student_schedule.py:105-119 | the listing appears exactly when the student is known, has courses and the schedule map is non-empty |
| `StudentScheduleCli.ExamOrNote` | process/student_schedule.py:127-138 | every enrolled course is either an exam with its date or a note, never both, and the two add up to the courses |
| `StudentScheduleCli.ExamsByDate` | process/student_schedule.py:141 | the listed exams are ascending by date, with ties in enrollment order |
| `ExamPeriod.YearLength` | process/process_schedule.py:47 | a year adds 366 days when leap and 365 otherwise to the days before it |
| `ExamPeriod.OrdinalBounds` | process/process_schedule.py:29-30 | every valid date has an ordinal from 1 to that of 9999-12-31 |
| `ExamPeriod.OrdinalOrder` | process/process_schedule.py:43 | ordinals order dates as (year, month, day) does and are equal only for the same date |
| `ExamPeriod.ParseIsoDate` | process/process_schedule.py:29-30 | a parsed date has the YYYY-MM-DD shape and an ordinal in range |
| `ExamPeriod.IsoRoundTrip` | process/process_schedule.py:46 | the isoformat of a date parses back to the same day |
| `ExamPeriod.FridayExample` | process/process_schedule.py:45 | 2024-08-23 parses to day 739121, a Friday |
| `ExamPeriod.ParseHolidays` | process/process_schedule.py:33-40 | the holiday loop computes Holidays |
| `ExamPeriod.Holidays` | process/process_schedule.py:33-40 | defines the holiday set; the empty string gives none, and every holiday is a day of the calendar (1 to 9999-12-31) |
| `ExamPeriod.HolidaysExactly` | process/process_schedule.py:33-40 | a day is a holiday exactly when some comma-separated item, stripped, parses to it; invalid items are ignored |
| `ExamPeriod.DaysInExactly` | process/process_schedule.py:33-40 | a day is collected exactly when some item parses to it |
| `ExamPeriod.GetAvailableDates` | process/process_schedule.py:25-54 | the date loop computes AvailableDates, including the overflow error past 9999-12-31 |
| `ExamPeriod.CollectDates` | process/process_schedule.py:42-52 | the stepping loop computes the open days of the range, or the overflow error past 9999-12-31 |
| `ExamPeriod.OpenDays` | process/process_schedule.py:42-47 | defines the days the loop appends; there are at most as many as days in the range, and each is neither a Friday nor a holiday |
| `ExamPeriod.OpenDaysExactly` | process/process_schedule.py:42-47 | a day is kept exactly when it lies between start and end and is neither a Friday nor a holiday |
| `ExamPeriod.OpenDaysAscending` | process/process_schedule.py:42-47 | the kept days are strictly ascending, so none repeats |
| `ExamPeriod.AvailableDatesExactly` | process/process_schedule.py:25-54 | an unparseable start or end gives the format error; the dates returned are exactly the open days of the range, ascending, and none when start is after end |
| `ExamPeriod.OverflowOnLastDay` | process/process_schedule.py:47-52 | the range fails exactly when start is not after end and end is 9999-12-31 |
| `ExamPeriod.MembershipsExactly` | process/process_schedule.py:126-128 | the loops visit exactly the (student, course) enrollments |
| `ExamPeriod.GroupOfExactly` | process/process_schedule.py:125-131 | course_pairs maps each enrolled course to exactly its students, and its key list holds each such course once |
| `ExamPeriod.GroupStudents` | process/process_schedule.py:125-128 | the grouping loops compute that map and its key order |
| `ExamPeriod.ConflictPairs` | process/process_schedule.py:130-140 | the nested index loops compute the pairs added row by row |
| `ExamPeriod.RowPairsExactly` | process/process_schedule.py:133-140 | the inner loop for course i adds exactly the ordered pairs of i with a later course sharing a student |
| `ExamPeriod.PairsBeforeExactly` | process/process_schedule.py:130-140 | after n rounds of the outer loop the pairs are exactly those of the first n courses with a later course sharing a student |
| `ExamPeriod.PairsExactly` | process/process_schedule.py:133-140 | the loops add a pair exactly when its codes are two courses, in ascending order, whose student sets meet |
| `ExamPeriod.SharesExactly` | process/process_schedule.py:138 | two courses' student sets meet exactly when some student is enrolled in both |
| `ExamPeriod.Conflicts` | process/process_schedule.py:123-140 | defines the set of conflicting pairs; each pair is in ascending order |
| `ExamPeriod.ConflictsExactly` | process/process_schedule.py:123-140 | a pair is reported exactly when its codes are ascending, and so distinct, and some student is enrolled in both; each such pair once |
| `ExamPeriod.FindConflictingCourses` | process/process_schedule.py:123-143 | the function returns the "c1 & c2" strings of those pairs |
| `ExamPeriod.ConflictLabels` | process/process_schedule.py:143 | a string is reported exactly when it is "a & b" for an ascending pair sharing a student |
| `ExamPeriod.Pipeline` | process/process_schedule.py:248-279 | defines the main block after argument parsing; a suggestion is written only when the dates parse, some open day remains and both database steps succeed |
| `ExamPeriod.FirstErrorWins` | process/process_schedule.py:248-268 | the first failing step (dates, no dates, course summary, enrollments) decides the result |
| `ExamPeriod.StartAfterEndNoDates` | process/process_schedule.py:253-254 | a start after the end gives the "No available exam dates" error |
| `ExamPeriod.SuggestionInputs` | process/process_schedule.py:268-279 | when every step succeeds, the suggestion step gets the open days of the range, ascending, and exactly the conflicting pairs |
| `ExamPeriod.Run` | process/process_schedule.py:230-279 | defines the script's result; fewer than two arguments give the usage error, and a suggestion is written only when both date arguments parse |
| `ExamPeriod.RunDefaultsHolidays` | process/process_schedule.py:234-244 | fewer than two arguments give the usage error, and a missing holidays argument means "" |

## Left out

- File I/O is left out: existence and readability checks, reading, `fopen`/`fgetcsv` tokenisation, and JSON decoding. The CSV rows, the decoded result file and the suggestion text are inputs; the decoding error message is a parameter.
- Database lookups are left out: course levels, a student's enrolled courses, the student lookup, the course marks summary and the enrollments dict. They are inputs or `Fetch` results. The database error that `exam_schedule.php:354` appends to the load error is not modelled.
- The external suggestion generator is a parameter of `ExamPeriod.Pipeline`: the shell-out from the pages, `get_deepseek_suggestion` and its HTTP call and prompt text.
- Floating point is not modelled. Totals and averages are exact reals, PHP `round(…, 2)` is not applied, and `floatval` is the exact value of the numeral.
- PHP `is_numeric` is modelled for the decimal and exponent forms only. Hexadecimal and other PHP-version quirks are out.
- PHP numeric-string array keys and `<=>` on numeric strings are out. Course codes and dates are compared as strings.
- HTML rendering, `htmlspecialchars` and printing are out, including the "(Saved suggestion received but contained no parsable…)" notice and the Python script's console output.
- The JavaScript date-range and holiday pickers, FullCalendar configuration, dashboard.php, index.php, config.php, db_connect.php and fakeData/ are not part of this model.
- Request handling (GET/POST reading of the student id) is out; the trimmed id is an input.
- `exam_schedule.php` collects `$all_course_codes`, which only feeds the level query, so it is not modelled.
- ExamPeriod.GetAvailableDates: the dates are returned as ordinals, not isoformat strings. `ExamPeriod.IsoRoundTrip` ties the two forms.
- ExamPeriod.ParseIsoDate: models the strict YYYY-MM-DD form that `date.fromisoformat` accepts before Python 3.11; the wider 3.11 forms are not modelled.
- ExamPeriod.FindConflictingCourses: returns a set, because the source's list follows the iteration order of a Python set.
- ExamPeriod.FirstErrorWins: `find_conflicting_courses` never returns an error, so the warning branch of lines 275-276 is not modelled.
- StudentScheduleCli.GetExamSchedule: the distinct failure messages it prints (missing file, invalid JSON, other exceptions) are not modelled; all of them give None.

## Findings

| source | as written | input that shows it | evidently intended | confidence | as-written member | corrected member |
|---|---|---|---|---|---|---|
| student_schedule.php:110-113 | the course-to-date map and the error map share one array, so a suggestion line whose course is "error" sets the `error` key and the search reports its date as an error | the suggestion "1. 2024-08-20: error" makes the page show the error "2024-08-20" instead of the student's exams | only a failed load stops the search; a parsed suggestion always lists the student's matched exams | medium, not executed | `StudentSchedulePage.ErrorCourseMasquerades` | `StudentSchedulePage.IntendedSearchFinds` |
