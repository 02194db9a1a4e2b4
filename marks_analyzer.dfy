/** analyzeStudentDataFromCSV (analyze_csv.php:11-141): the scan over the CSV
    rows that finds the marks section, validates its rows and aggregates them,
    stated once as a function of the rows (Analyze) and once as the loop the
    source runs (AnalyzeStudentData), which is proved to compute it. */
module MarksAnalyzer {
  import opened Text
  import opened Wrappers
  import opened CsvSection
  import opened MarkStats
  import Sorting

  /** What opening the CSV file gives: the file check of line 30 fails, the
      fopen() of line 34 fails, or the rows fgetcsv() returns, in order. */
  datatype CsvSource = Unreadable | OpenFailed | Opened(rows: seq<Row>)

  /** The two file errors and the three errors of the scan. */
  datatype AnalysisError = CannotRead | CannotOpen | HeaderNotFound | MissingColumns | NoValidRows

  /** The value returned: ['error' => ...] or the statistics. */
  datatype Analysis =
    | Failed(error: AnalysisError)
    | Analyzed(overall: Averaged, courses: seq<CourseResult>)

  /** The text of each error; path is the CSV file path as given. */
  function Message(e: AnalysisError, path: string): string {
    match e
    case CannotRead => "Error: Could not open or read the CSV file: " + path
    case CannotOpen => "Error: Could not open the CSV file: " + path
    case HeaderNotFound => "Error: Specified marks header was not found in the file."
    case MissingColumns => "Error: Marks header found, but essential columns (id, student_id, course_code, total, grade) are missing."
    case NoValidRows => "Error: Marks header found, but no valid data rows followed."
  }

  /** How many rows the loop of line 35 reads: at most limitRows, none when the
      limit is not positive. */
  function Consumed(rows: seq<Row>, limitRows: int): (n: nat)
    ensures n <= |rows|
    ensures limitRows <= 0 ==> n == 0
    ensures limitRows > 0 ==> n == if limitRows < |rows| then limitRows else |rows|
  {
    if limitRows <= 0 then 0 else if limitRows < |rows| then limitRows else |rows|
  }

  /** Where the marks section lies among the rows read. */
  datatype Located =
    | NotFound
    | BadColumns
    | Section(cols: seq<string>, body: seq<Row>)

  /** The first header match, its column check, and the rows after it up to
      the first row that ends the section. */
  function Locate(rows: seq<Row>, marksHeader: string): Located {
    match HeaderIndex(rows, marksHeader)
    case None => NotFound
    case Some(k) =>
      var cols := Columns(rows[k]);
      if !HasRequiredColumns(cols) then BadColumns
      else Section(cols, rows[k + 1..SectionEnd(rows, k + 1, |cols|)])
  }

  /** The average of every course bucket, in the order of the buckets. */
  function FinalizeAll(cs: seq<CourseBucket>): (rs: seq<CourseResult>)
    ensures |rs| == |cs|
    ensures forall i :: 0 <= i < |cs| ==> rs[i] == CourseResult(cs[i].code, Finalize(cs[i].bucket))
  {
    seq(|cs|, i requires 0 <= i < |cs| => CourseResult(cs[i].code, Finalize(cs[i].bucket)))
  }

  /** What the scan of lines 35-112 leaves behind. */
  datatype Scan =
    | NoHeader
    | ColumnsMissing
    | Scanned(overall: Bucket, courses: seq<CourseBucket>)

  /** The scan's outcome over the rows read. */
  function ScanOf(read: seq<Row>, marksHeader: string): Scan {
    match Locate(read, marksHeader)
    case NotFound => NoHeader
    case BadColumns => ColumnsMissing
    case Section(cols, body) =>
      var st := Aggregate(SectionRecords(cols, body));
      Scanned(st.overall, st.courses)
  }

  /** The default of the limitRows parameter (line 11), which every caller
      in the repository relies on. */
  const DefaultLimitRows := 10000

  /** The value of analyzeStudentDataFromCSV for a given source. */
  function Analyze(src: CsvSource, marksHeader: string, limitRows: int): (a: Analysis)
    ensures a == Failed(CannotRead) <==> src.Unreadable?
    ensures a == Failed(CannotOpen) <==> src.OpenFailed?
    ensures a.Analyzed? ==> src.Opened? && a.overall.stats.count > 0
  {
    match src
    case Unreadable => Failed(CannotRead)
    case OpenFailed => Failed(CannotOpen)
    case Opened(all) =>
      match ScanOf(all[..Consumed(all, limitRows)], marksHeader)
      case NoHeader => Failed(HeaderNotFound)
      case ColumnsMissing => Failed(MissingColumns)
      case Scanned(overall, courses) =>
        if overall.count == 0 then Failed(NoValidRows)
        else Analyzed(Finalize(overall), Sorting.SortBy(FinalizeAll(courses), ResultCode))
  }

  /** The records a successful scan aggregates. */
  function Records(rows: seq<Row>, marksHeader: string, limitRows: int): seq<MarkRecord> {
    match Locate(rows[..Consumed(rows, limitRows)], marksHeader)
    case Section(cols, body) => SectionRecords(cols, body)
    case _ => []
  }

  // ---------------------------------------------------------------------------
  // The scan as the source runs it
  // ---------------------------------------------------------------------------

  /** The statistics after one section row: a valid row is ingested, any
      other row changes nothing. */
  function RowStep(cols: seq<string>, row: Row, st: Stats): Stats {
    if IsValidRow(cols, row) then Ingest(st, ToRecord(cols, row).value) else st
  }

  /** Folding RowStep over a section is aggregating its records. */
  lemma RowStepSnoc(cols: seq<string>, section: seq<Row>, row: Row)
    ensures Aggregate(SectionRecords(cols, section + [row]))
         == RowStep(cols, row, Aggregate(SectionRecords(cols, section)))
  {
    SectionRecordsSnoc(cols, section, row);
    if IsValidRow(cols, row) {
      AggregateSnoc(SectionRecords(cols, section), ToRecord(cols, row).value);
    } else {
      assert SectionRecords(cols, section) + [] == SectionRecords(cols, section);
    }
  }

  /** Lines 65-111 for one row inside the section: a row of another width or
      one that fails validation is skipped; any other row is added to the
      overall bucket and to its course's bucket, created at the end of the
      course list on first sight of the code. */
  method AggregateRow(cols: seq<string>, data: Row, overall: Bucket, courses: seq<CourseBucket>)
    returns (overall': Bucket, courses': seq<CourseBucket>)
    ensures Stats(overall', courses') == RowStep(cols, data, Stats(overall, courses))
  {
    overall', courses' := overall, courses;
    if |data| != |cols| {
      return;
    }
    var rec := ToRecord(cols, data);
    if rec.None? {
      return;
    }
    var r := rec.value;
    overall' := Add(overall, r);
    var i := CodeIndex(courses, r.courseCode);
    if i == |courses| {
      courses' := courses + [CourseBucket(r.courseCode, Add(EmptyBucket, r))];
    } else {
      courses' := courses[i := CourseBucket(r.courseCode, Add(courses[i].bucket, r))];
    }
  }

  /** After n rows the scan is still looking for the header: none matched. */
  ghost predicate Seeking(read: seq<Row>, marksHeader: string, n: nat) {
    n <= |read| && forall j :: 0 <= j < n ==> !IsHeaderRow(read[j], marksHeader)
  }

  /** After n rows the scan is inside the section that starts after row k:
      row k is the first header match, its columns are complete, no row since
      ended the section, and the statistics are those of the rows since. */
  ghost predicate InSection(read: seq<Row>, marksHeader: string, n: nat, k: nat,
                            cols: seq<string>, overall: Bucket, courses: seq<CourseBucket>)
  {
    && k < n <= |read|
    && Seeking(read, marksHeader, k) && IsHeaderRow(read[k], marksHeader)
    && cols == Columns(read[k]) && HasRequiredColumns(cols)
    && (forall j :: k < j < n ==> !EndsSection(read[j], |cols|))
    && Stats(overall, courses) == Aggregate(SectionRecords(cols, read[k + 1..n]))
  }

  lemma SeekPast(read: seq<Row>, marksHeader: string, n: nat)
    requires Seeking(read, marksHeader, n) && n < |read| && !IsHeaderRow(read[n], marksHeader)
    ensures Seeking(read, marksHeader, n + 1)
  {
  }

  lemma SeekToEnd(read: seq<Row>, marksHeader: string)
    requires Seeking(read, marksHeader, |read|)
    ensures ScanOf(read, marksHeader) == NoHeader
  {
  }

  lemma HeaderAt(read: seq<Row>, marksHeader: string, n: nat)
    requires Seeking(read, marksHeader, n) && n < |read| && IsHeaderRow(read[n], marksHeader)
    ensures HeaderIndex(read, marksHeader) == Some(n)
  {
    var h := HeaderIndex(read, marksHeader);
    assert h.Some?;
    assert !(h.value < n);
    assert !(h.value > n);
  }

  lemma HeaderIncomplete(read: seq<Row>, marksHeader: string, n: nat)
    requires Seeking(read, marksHeader, n) && n < |read| && IsHeaderRow(read[n], marksHeader)
    requires !HasRequiredColumns(Columns(read[n]))
    ensures ScanOf(read, marksHeader) == ColumnsMissing
  {
    HeaderAt(read, marksHeader, n);
  }

  lemma EnterSection(read: seq<Row>, marksHeader: string, n: nat)
    requires Seeking(read, marksHeader, n) && n < |read| && IsHeaderRow(read[n], marksHeader)
    requires HasRequiredColumns(Columns(read[n]))
    ensures InSection(read, marksHeader, n + 1, n, Columns(read[n]), EmptyBucket, [])
  {
    assert read[n + 1..n + 1] == [];
  }

  lemma SectionRow(read: seq<Row>, marksHeader: string, n: nat, k: nat, cols: seq<string>,
                   overall: Bucket, courses: seq<CourseBucket>, overall': Bucket, courses': seq<CourseBucket>)
    requires InSection(read, marksHeader, n, k, cols, overall, courses)
    requires n < |read| && !EndsSection(read[n], |cols|)
    requires Stats(overall', courses') == RowStep(cols, read[n], Stats(overall, courses))
    ensures InSection(read, marksHeader, n + 1, k, cols, overall', courses')
  {
    SectionStatsStep(read, n, k, cols, Stats(overall, courses), Stats(overall', courses'));
    NoEndThrough(read, n, k, |cols|);
  }

  /** No row after k up to and including row n ends the section. */
  lemma NoEndThrough(read: seq<Row>, n: nat, k: nat, width: nat)
    requires n < |read| && !EndsSection(read[n], width)
    requires forall j :: k < j < n ==> !EndsSection(read[j], width)
    ensures forall j :: k < j < n + 1 ==> !EndsSection(read[j], width)
  {
  }

  /** The statistics of the section grow by one row's step. */
  lemma SectionStatsStep(read: seq<Row>, n: nat, k: nat, cols: seq<string>, st: Stats, st': Stats)
    requires k < n < |read|
    requires st == Aggregate(SectionRecords(cols, read[k + 1..n]))
    requires st' == RowStep(cols, read[n], st)
    ensures st' == Aggregate(SectionRecords(cols, read[k + 1..n + 1]))
  {
    var before := read[k + 1..n];
    assert read[k + 1..n + 1] == before + [read[n]];
    RowStepSnoc(cols, before, read[n]);
  }

  lemma SectionStops(read: seq<Row>, marksHeader: string, n: nat, k: nat,
                     cols: seq<string>, overall: Bucket, courses: seq<CourseBucket>)
    requires InSection(read, marksHeader, n, k, cols, overall, courses)
    requires n == |read| || EndsSection(read[n], |cols|)
    ensures ScanOf(read, marksHeader) == Scanned(overall, courses)
  {
    LocateSection(read, marksHeader, n, k, cols);
  }

  /** The section located is the one the scan entered at row k and left at row n. */
  lemma LocateSection(read: seq<Row>, marksHeader: string, n: nat, k: nat, cols: seq<string>)
    requires k < n <= |read|
    requires Seeking(read, marksHeader, k) && IsHeaderRow(read[k], marksHeader)
    requires cols == Columns(read[k]) && HasRequiredColumns(cols)
    requires forall j :: k < j < n ==> !EndsSection(read[j], |cols|)
    requires n == |read| || EndsSection(read[n], |cols|)
    ensures Locate(read, marksHeader) == Section(cols, read[k + 1..n])
  {
    HeaderAt(read, marksHeader, k);
    SectionEndAt(read, k + 1, |cols|, n);
  }

  /** Lines 56-111 for one row after the header: the row ends the section,
      or it is aggregated (or skipped) and the scan goes on. */
  method SectionRowStep(ghost read: seq<Row>, ghost marksHeader: string, ghost n: nat, ghost k: nat,
                        cols: seq<string>, data: Row, overall: Bucket, courses: seq<CourseBucket>)
    returns (stop: bool, overall': Bucket, courses': seq<CourseBucket>)
    requires InSection(read, marksHeader, n, k, cols, overall, courses)
    requires n < |read| && data == read[n]
    ensures stop <==> EndsSection(data, |cols|)
    ensures stop ==> ScanOf(read, marksHeader) == Scanned(overall, courses)
    ensures !stop ==> InSection(read, marksHeader, n + 1, k, cols, overall', courses')
  {
    if |data| < |cols| || (|data| == 3 && CtypeUpper(Unquote(data[0])))
       || (|data| == 2 && MatchesStudentIdPattern(Unquote(data[0]))) {
      SectionStops(read, marksHeader, n, k, cols, overall, courses);
      return true, overall, courses;
    }
    overall', courses' := AggregateRow(cols, data, overall, courses);
    SectionRow(read, marksHeader, n, k, cols, overall, courses, overall', courses');
    stop := false;
  }

  /** Lines 40-52 for one row while the header is still sought: the row is
      the header, with or without the required columns, or it is skipped. */
  method HeaderRowStep(ghost read: seq<Row>, marksHeader: string, ghost n: nat, data: Row)
    returns (found: bool, cols: seq<string>, missing: bool)
    requires Seeking(read, marksHeader, n) && n < |read| && data == read[n]
    ensures found <==> IsHeaderRow(data, marksHeader)
    ensures missing ==> ScanOf(read, marksHeader) == ColumnsMissing
    ensures found && !missing ==> InSection(read, marksHeader, n + 1, n, cols, EmptyBucket, [])
    ensures !found ==> !missing && Seeking(read, marksHeader, n + 1)
  {
    missing := false;
    cols := [];
    found := IsHeaderRow(data, marksHeader);
    if found {
      cols := Columns(data);
      if !HasRequiredColumns(cols) {
        HeaderIncomplete(read, marksHeader, n);
        missing := true;
      } else {
        EnterSection(read, marksHeader, n);
      }
    } else {
      SeekPast(read, marksHeader, n);
    }
  }

  /** The state the loop of lines 35-112 keeps after n rows: still seeking
      the header, or inside the section entered at row k. */
  ghost predicate Scanning(read: seq<Row>, marksHeader: string, n: nat, headerFound: bool, k: nat,
                           cols: seq<string>, overall: Bucket, courses: seq<CourseBucket>)
  {
    && (!headerFound ==> Seeking(read, marksHeader, n) && overall == EmptyBucket && courses == [])
    && (headerFound ==> InSection(read, marksHeader, n, k, cols, overall, courses))
  }

  /** One pass of the loop body of lines 36-111 on row n. */
  method ScanStep(ghost read: seq<Row>, marksHeader: string, ghost n: nat, data: Row,
                  headerFound: bool, ghost k: nat, cols: seq<string>, overall: Bucket, courses: seq<CourseBucket>)
    returns (done: bool, scan: Scan, headerFound': bool, ghost k': nat,
             cols': seq<string>, overall': Bucket, courses': seq<CourseBucket>)
    requires n < |read| && data == read[n]
    requires Scanning(read, marksHeader, n, headerFound, k, cols, overall, courses)
    ensures done ==> scan == ScanOf(read, marksHeader)
    ensures !done ==> Scanning(read, marksHeader, n + 1, headerFound', k', cols', overall', courses')
  {
    scan, k', cols', overall', courses' := NoHeader, k, cols, overall, courses;
    if !headerFound {
      var missing;
      headerFound', cols', missing := HeaderRowStep(read, marksHeader, n, data);
      k' := n;
      done := missing;
      scan := ColumnsMissing;
      return;
    }
    headerFound' := true;
    done, overall', courses' := SectionRowStep(read, marksHeader, n, k, cols, data, overall, courses);
    scan := Scanned(overall, courses);
  }

  /** The loop of lines 35-112 over the rows fgetcsv() returns, reading at most
      limitRows of them. */
  method ScanMarks(rows: seq<Row>, marksHeader: string, limitRows: int) returns (scan: Scan)
    ensures scan == ScanOf(rows[..Consumed(rows, limitRows)], marksHeader)
  {
    ghost var read := rows[..Consumed(rows, limitRows)];
    var rowCount := 0;
    var headerFound := false;
    var actualHeaders: seq<string> := [];
    var overall := EmptyBucket;
    var courses: seq<CourseBucket> := [];
    ghost var k := 0;
    while rowCount < |rows| && rowCount < limitRows
      invariant rowCount <= |read|
      invariant Scanning(read, marksHeader, rowCount, headerFound, k, actualHeaders, overall, courses)
      decreases |read| - rowCount
    {
      var data := rows[rowCount];
      assert data == read[rowCount];
      var done;
      done, scan, headerFound, k, actualHeaders, overall, courses :=
        ScanStep(read, marksHeader, rowCount, data, headerFound, k, actualHeaders, overall, courses);
      if done {
        return;
      }
      rowCount := rowCount + 1;
    }
    assert rowCount == |read|;
    ScanFinish(read, marksHeader, headerFound, k, actualHeaders, overall, courses);
    if !headerFound {
      return NoHeader;
    }
    return Scanned(overall, courses);
  }

  /** Line 112: the rows run out while seeking the header, or inside the section. */
  lemma ScanFinish(read: seq<Row>, marksHeader: string, headerFound: bool, k: nat,
                   cols: seq<string>, overall: Bucket, courses: seq<CourseBucket>)
    requires Scanning(read, marksHeader, |read|, headerFound, k, cols, overall, courses)
    ensures ScanOf(read, marksHeader) == if headerFound then Scanned(overall, courses) else NoHeader
  {
    if headerFound {
      SectionStops(read, marksHeader, |read|, k, cols, overall, courses);
    } else {
      SeekToEnd(read, marksHeader);
    }
  }

  /** analyzeStudentDataFromCSV: the file checks of lines 30 and 34, the scan,
      the checks of lines 115-120 and the averages and ksort() of lines 128-135. */
  method AnalyzeStudentData(src: CsvSource, marksHeader: string, limitRows: int) returns (result: Analysis)
    ensures result == Analyze(src, marksHeader, limitRows)
  {
    if src.Unreadable? {
      return Failed(CannotRead);
    }
    if src.OpenFailed? {
      return Failed(CannotOpen);
    }
    var scan := ScanMarks(src.rows, marksHeader, limitRows);
    if scan.NoHeader? {
      return Failed(HeaderNotFound);
    }
    if scan.ColumnsMissing? {
      return Failed(MissingColumns);
    }
    var overall, courses := scan.overall, scan.courses;
    if overall.count == 0 {
      return Failed(NoValidRows);
    }
    var results := AverageCourses(courses);
    return Analyzed(Finalize(overall), Sorting.SortBy(results, ResultCode));
  }

  /** The foreach of lines 130-132: each course bucket gets its average. */
  method AverageCourses(courses: seq<CourseBucket>) returns (results: seq<CourseResult>)
    ensures results == FinalizeAll(courses)
  {
    results := [];
    var i := 0;
    while i < |courses|
      invariant 0 <= i <= |courses|
      invariant results == FinalizeAll(courses[..i])
    {
      results := results + [CourseResult(courses[i].code, Finalize(courses[i].bucket))];
      i := i + 1;
    }
    assert courses[..i] == courses;
  }

  // ---------------------------------------------------------------------------
  // What the analysis promises
  // ---------------------------------------------------------------------------

  lemma {:induction false} SumResultsFinalize(cs: seq<CourseBucket>)
    ensures SumResults(FinalizeAll(cs)) == SumBuckets(cs)
    decreases |cs|
  {
    if cs != [] {
      SumResultsFinalize(cs[1..]);
      assert FinalizeAll(cs)[1..] == FinalizeAll(cs[1..]);
    }
  }

  /** The reported list is sorted, distinct, and adds up to every record. */
  lemma ReportedOrder(recs: seq<MarkRecord>, cs: seq<CourseResult>)
    requires cs == Sorting.SortBy(FinalizeAll(Aggregate(recs).courses), ResultCode)
    ensures Sorting.SortedBy(cs, ResultCode)
    ensures Sorting.DistinctKeys(cs, ResultCode)
    ensures SumResults(cs) == BucketOf(recs)
  {
    var courses := Aggregate(recs).courses;
    var fs := FinalizeAll(courses);
    AggregateDescribes(recs);
    AggregateConserves(recs);
    Sorting.SortByCorrect(fs, ResultCode);
    assert Sorting.DistinctKeys(fs, ResultCode);
    Sorting.SortByDistinct(fs, ResultCode);
    SumResultsSorted(fs);
    SumResultsFinalize(courses);
  }

  /** Each reported entry is the averaged bucket of exactly its course's records. */
  lemma ReportedEntries(recs: seq<MarkRecord>, cs: seq<CourseResult>)
    requires cs == Sorting.SortBy(FinalizeAll(Aggregate(recs).courses), ResultCode)
    ensures forall i :: 0 <= i < |cs| ==>
      && cs[i].result == Finalize(cs[i].result.stats)
      && cs[i].result.stats == BucketOf(ForCourse(recs, cs[i].code))
      && cs[i].result.stats.count > 0
  {
    var courses := Aggregate(recs).courses;
    var fs := FinalizeAll(courses);
    AggregateDescribes(recs);
    AggregateConserves(recs);
    Sorting.SortByMembers(fs, ResultCode);
    forall i | 0 <= i < |cs|
      ensures cs[i].result == Finalize(cs[i].result.stats)
      ensures cs[i].result.stats == BucketOf(ForCourse(recs, cs[i].code)) && cs[i].result.stats.count > 0
    {
      assert cs[i] in fs;
      var j :| 0 <= j < |fs| && fs[j] == cs[i];
      FinalizeAverage(courses[j].bucket);
    }
  }

  /** Some entry of the list carries the code. */
  ghost predicate Lists(cs: seq<CourseResult>, code: string) {
    exists i :: 0 <= i < |cs| && cs[i].code == code
  }

  /** A list holding the same entries as the averaged buckets names every
      code that has a bucket. */
  lemma ResultsCover(courses: seq<CourseBucket>, recs: seq<MarkRecord>, cs: seq<CourseResult>)
    requires Covers(courses, recs)
    requires forall x :: x in cs <==> x in FinalizeAll(courses)
    ensures forall j :: 0 <= j < |recs| ==> Lists(cs, recs[j].courseCode)
  {
    var fs := FinalizeAll(courses);
    forall j | 0 <= j < |recs| ensures Lists(cs, recs[j].courseCode) {
      assert HasBucket(courses, recs[j].courseCode);
      var k :| 0 <= k < |courses| && courses[k].code == recs[j].courseCode;
      assert fs[k] in fs;
      assert fs[k] in cs;
      var i :| 0 <= i < |cs| && cs[i] == fs[k];
      assert cs[i].code == recs[j].courseCode;
    }
  }

  /** Sorting the averaged buckets keeps every code that has a bucket. */
  lemma SortedCover(courses: seq<CourseBucket>, recs: seq<MarkRecord>, cs: seq<CourseResult>)
    requires Covers(courses, recs)
    requires cs == Sorting.SortBy(FinalizeAll(courses), ResultCode)
    ensures forall j :: 0 <= j < |recs| ==> Lists(cs, recs[j].courseCode)
  {
    Sorting.SortByMembers(FinalizeAll(courses), ResultCode);
    ResultsCover(courses, recs, cs);
  }

  /** A successful analysis is the report of the records it counted. */
  lemma AnalyzedFromRecords(rows: seq<Row>, marksHeader: string, limitRows: int)
    requires Analyze(Opened(rows), marksHeader, limitRows).Analyzed?
    ensures var st := Aggregate(Records(rows, marksHeader, limitRows));
      && st.overall.count > 0
      && Analyze(Opened(rows), marksHeader, limitRows)
         == Analyzed(Finalize(st.overall), Sorting.SortBy(FinalizeAll(st.courses), ResultCode))
  {
    var read := rows[..Consumed(rows, limitRows)];
    assert ScanOf(read, marksHeader).Scanned?;
    ScannedRecords(rows, marksHeader, limitRows);
  }

  /** A scan that reaches a section aggregates the records of that section. */
  lemma ScannedRecords(rows: seq<Row>, marksHeader: string, limitRows: int)
    requires ScanOf(rows[..Consumed(rows, limitRows)], marksHeader).Scanned?
    ensures var st := Aggregate(Records(rows, marksHeader, limitRows));
      ScanOf(rows[..Consumed(rows, limitRows)], marksHeader) == Scanned(st.overall, st.courses)
  {
    var read := rows[..Consumed(rows, limitRows)];
    var loc := Locate(read, marksHeader);
    assert loc.Section?;
    assert Records(rows, marksHeader, limitRows) == SectionRecords(loc.cols, loc.body);
  }

  /** A successful analysis: the overall result is the bucket of every
      counted record with its average, its histogram counts the ones carrying one of the six grade labels, and
      it equals the sum of the course buckets. */
  lemma AnalyzedTotals(rows: seq<Row>, marksHeader: string, limitRows: int)
    requires Analyze(Opened(rows), marksHeader, limitRows).Analyzed?
    ensures var a := Analyze(Opened(rows), marksHeader, limitRows);
      var recs := Records(rows, marksHeader, limitRows);
      && a.overall == Finalize(BucketOf(recs))
      && a.overall.stats.count == |recs| > 0
      && a.overall.stats.grades.Total() + UnlistedCount(recs) == a.overall.stats.count
      && a.overall.stats == SumResults(a.courses)
  {
    var recs := Records(rows, marksHeader, limitRows);
    AnalyzedFromRecords(rows, marksHeader, limitRows);
    AggregateConserves(recs);
    BucketOfCounts(recs);
    ReportedOrder(recs, Analyze(Opened(rows), marksHeader, limitRows).courses);
  }

  /** A successful analysis lists the courses sorted by code with no code
      twice, each entry the bucket of exactly that course's counted records
      with its average,
      and every counted record's course listed. */
  lemma AnalyzedCourses(rows: seq<Row>, marksHeader: string, limitRows: int)
    requires Analyze(Opened(rows), marksHeader, limitRows).Analyzed?
    ensures var a := Analyze(Opened(rows), marksHeader, limitRows);
      var recs := Records(rows, marksHeader, limitRows);
      && Sorting.SortedBy(a.courses, ResultCode)
      && Sorting.DistinctKeys(a.courses, ResultCode)
      && (forall i :: 0 <= i < |a.courses| ==>
            && a.courses[i].result == Finalize(BucketOf(ForCourse(recs, a.courses[i].code)))
            && a.courses[i].result.stats.count > 0)
      && (forall j :: 0 <= j < |recs| ==>
            exists i :: 0 <= i < |a.courses| && a.courses[i].code == recs[j].courseCode)
  {
    var recs := Records(rows, marksHeader, limitRows);
    var cs := Analyze(Opened(rows), marksHeader, limitRows).courses;
    AnalyzedFromRecords(rows, marksHeader, limitRows);
    ReportedOrder(recs, cs);
    ReportedEntries(recs, cs);
    AggregateCovers(recs);
    SortedCover(Aggregate(recs).courses, recs, cs);
  }

  // ---------------------------------------------------------------------------
  // When the analysis fails
  // ---------------------------------------------------------------------------

  /** The header search fails exactly when no row read equals the marks
      header; in particular it fails whenever the limit is not positive. */
  lemma HeaderNotFoundExactly(rows: seq<Row>, marksHeader: string, limitRows: int)
    ensures Analyze(Opened(rows), marksHeader, limitRows) == Failed(HeaderNotFound)
        <==> forall j :: 0 <= j < Consumed(rows, limitRows) ==> !IsHeaderRow(rows[j], marksHeader)
  {
    var read := rows[..Consumed(rows, limitRows)];
    assert forall j :: 0 <= j < |read| ==> read[j] == rows[j];
  }

  /** The first row that equals the marks header, when it lacks a required
      column, is exactly what makes Locate report BadColumns. */
  lemma BadColumnsExactly(read: seq<Row>, marksHeader: string)
    ensures Locate(read, marksHeader) == BadColumns
        <==> exists k :: && 0 <= k < |read|
                         && IsHeaderRow(read[k], marksHeader)
                         && (forall j :: 0 <= j < k ==> !IsHeaderRow(read[j], marksHeader))
                         && !HasRequiredColumns(Columns(read[k]))
  {
    match HeaderIndex(read, marksHeader)
    case None =>
    case Some(k) =>
      forall k' | 0 <= k' < |read| && IsHeaderRow(read[k'], marksHeader)
                  && (forall j :: 0 <= j < k' ==> !IsHeaderRow(read[j], marksHeader))
        ensures k' == k
      {
        assert !(k' < k) && !(k < k');
      }
  }

  /** The column check fails exactly when the first row read that equals the
      marks header lacks one of the five required columns. */
  lemma MissingColumnsExactly(rows: seq<Row>, marksHeader: string, limitRows: int)
    ensures Analyze(Opened(rows), marksHeader, limitRows) == Failed(MissingColumns)
        <==> exists k :: && 0 <= k < Consumed(rows, limitRows)
                         && IsHeaderRow(rows[k], marksHeader)
                         && (forall j :: 0 <= j < k ==> !IsHeaderRow(rows[j], marksHeader))
                         && !HasRequiredColumns(Columns(rows[k]))
  {
    var read := rows[..Consumed(rows, limitRows)];
    assert forall j :: 0 <= j < |read| ==> read[j] == rows[j];
    BadColumnsExactly(read, marksHeader);
    MissingColumnsWhen(rows, marksHeader, limitRows);
  }

  /** The analysis reports missing columns exactly when the located header
      lacks one. */
  lemma MissingColumnsWhen(rows: seq<Row>, marksHeader: string, limitRows: int)
    ensures Analyze(Opened(rows), marksHeader, limitRows) == Failed(MissingColumns)
        <==> Locate(rows[..Consumed(rows, limitRows)], marksHeader) == BadColumns
  {
    var read := rows[..Consumed(rows, limitRows)];
    ScanMissing(read, marksHeader);
    var scan := ScanOf(read, marksHeader);
    assert Analyze(Opened(rows), marksHeader, limitRows) == Failed(MissingColumns) <==> scan == ColumnsMissing;
  }

  lemma ScanMissing(read: seq<Row>, marksHeader: string)
    ensures ScanOf(read, marksHeader) == ColumnsMissing <==> Locate(read, marksHeader) == BadColumns
  {
  }

  /** The overall count of an aggregation is the number of records. */
  lemma AggregateCount(recs: seq<MarkRecord>)
    ensures Aggregate(recs).overall.count == |recs|
  {
    AggregateConserves(recs);
    BucketOfCounts(recs);
  }

  /** Once the section is found with all its columns, the analysis fails
      exactly when none of its rows is valid. */
  lemma NoValidRowsExactly(rows: seq<Row>, marksHeader: string, limitRows: int)
    requires Locate(rows[..Consumed(rows, limitRows)], marksHeader).Section?
    ensures var loc := Locate(rows[..Consumed(rows, limitRows)], marksHeader);
      Analyze(Opened(rows), marksHeader, limitRows) == Failed(NoValidRows)
      <==> ValidRowIndices(loc.cols, loc.body) == {}
  {
    ScanCount(rows[..Consumed(rows, limitRows)], marksHeader);
    NoValidRowsWhen(rows, marksHeader, limitRows);
  }

  /** The analysis reports no valid rows exactly when the scan reached the
      section and counted nothing. */
  lemma NoValidRowsWhen(rows: seq<Row>, marksHeader: string, limitRows: int)
    ensures var scan := ScanOf(rows[..Consumed(rows, limitRows)], marksHeader);
      Analyze(Opened(rows), marksHeader, limitRows) == Failed(NoValidRows)
      <==> scan.Scanned? && scan.overall.count == 0
  {
  }

  /** A scan that reaches the section counts its valid rows. */
  lemma ScanCount(read: seq<Row>, marksHeader: string)
    requires Locate(read, marksHeader).Section?
    ensures var loc := Locate(read, marksHeader);
      && ScanOf(read, marksHeader).Scanned?
      && ScanOf(read, marksHeader).overall.count == |ValidRowIndices(loc.cols, loc.body)|
      && (ScanOf(read, marksHeader).overall.count == 0 <==> ValidRowIndices(loc.cols, loc.body) == {})
  {
    var loc := Locate(read, marksHeader);
    var recs := SectionRecords(loc.cols, loc.body);
    AggregateCount(recs);
    SectionRecordsCount(loc.cols, loc.body);
    var valid := ValidRowIndices(loc.cols, loc.body);
    if valid != {} {
      var i :| i in valid;
      assert |valid| > 0;
    }
  }

  /** The records counted are one per valid row of the section. */
  lemma RecordsPerValidRow(rows: seq<Row>, marksHeader: string, limitRows: int)
    requires Locate(rows[..Consumed(rows, limitRows)], marksHeader).Section?
    ensures var loc := Locate(rows[..Consumed(rows, limitRows)], marksHeader);
      |Records(rows, marksHeader, limitRows)| == |ValidRowIndices(loc.cols, loc.body)|
  {
    var loc := Locate(rows[..Consumed(rows, limitRows)], marksHeader);
    SectionRecordsCount(loc.cols, loc.body);
  }

  /** Rows past the limit are never read: appending rows after the first
      limitRows changes nothing. */
  lemma RowsPastLimitIgnored(rows: seq<Row>, more: seq<Row>, marksHeader: string, limitRows: int)
    requires limitRows <= |rows|
    ensures Analyze(Opened(rows + more), marksHeader, limitRows)
         == Analyze(Opened(rows), marksHeader, limitRows)
  {
    var n := Consumed(rows, limitRows);
    assert Consumed(rows + more, limitRows) == n;
    PrefixOfAppend(rows, more, n);
  }

  /** With the default limit, rows past the first 10000 never change the
      result. */
  lemma RowsPastDefaultLimitIgnored(rows: seq<Row>, more: seq<Row>, marksHeader: string)
    requires |rows| >= DefaultLimitRows
    ensures Analyze(Opened(rows + more), marksHeader, DefaultLimitRows)
         == Analyze(Opened(rows), marksHeader, DefaultLimitRows)
  {
    RowsPastLimitIgnored(rows, more, marksHeader, DefaultLimitRows);
  }

  lemma PrefixOfAppend(rows: seq<Row>, more: seq<Row>, n: nat)
    requires n <= |rows|
    ensures (rows + more)[..n] == rows[..n]
  {
  }
}
