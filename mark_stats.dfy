/** The statistics analyze_csv.php accumulates: a six-label grade histogram,
    a bucket (score sum, record count, histogram) for all records and one per
    course code, the averages written once the scan is over, and the ordering
    of the course buckets by code. */
module MarkStats {
  import opened Text
  import opened Wrappers
  import opened CsvSection
  import Sorting

  /** The labels of the grade histogram, in the order analyze_csv.php:20 lists them. */
  const GradeLabels: seq<string> := ["A+", "A", "B", "C", "D", "F"]

  /** Which histogram entry a grade string moves, if any. */
  datatype GradeSlot = SlotAPlus | SlotA | SlotB | SlotC | SlotD | SlotF | Unlisted

  /** array_key_exists($grade, grades): the slot of one of the six labels. */
  function SlotOf(grade: string): GradeSlot {
    if grade == "A+" then SlotAPlus
    else if grade == "A" then SlotA
    else if grade == "B" then SlotB
    else if grade == "C" then SlotC
    else if grade == "D" then SlotD
    else if grade == "F" then SlotF
    else Unlisted
  }

  /** Exactly the six labels have a slot, each its own. */
  lemma SlotOfLabels(grade: string)
    ensures SlotOf(grade) != Unlisted <==> grade in GradeLabels
    ensures SlotOf(grade) != Unlisted ==> GradeLabels[SlotIndex(SlotOf(grade))] == grade
  {
  }

  /** Position of a slot's label in GradeLabels. */
  function SlotIndex(s: GradeSlot): nat
    requires s != Unlisted
  {
    match s
    case SlotAPlus => 0
    case SlotA => 1
    case SlotB => 2
    case SlotC => 3
    case SlotD => 4
    case SlotF => 5
  }

  /** Counts per grade label: A+, A, B, C, D, F. */
  datatype Histogram = Histogram(aPlus: nat, a: nat, b: nat, c: nat, d: nat, f: nat) {

    function Total(): nat {
      aPlus + a + b + c + d + f
    }

    /** The count kept in a slot; 0 for Unlisted. */
    function Count(s: GradeSlot): nat {
      match s
      case SlotAPlus => aPlus
      case SlotA => a
      case SlotB => b
      case SlotC => c
      case SlotD => d
      case SlotF => f
      case Unlisted => 0
    }

    /** grades[$grade]++ for a listed grade; RecordCounts says what it does. */
    function Record(s: GradeSlot): Histogram {
      match s
      case SlotAPlus => this.(aPlus := aPlus + 1)
      case SlotA => this.(a := a + 1)
      case SlotB => this.(b := b + 1)
      case SlotC => this.(c := c + 1)
      case SlotD => this.(d := d + 1)
      case SlotF => this.(f := f + 1)
      case Unlisted => this
    }

    function Plus(o: Histogram): Histogram {
      Histogram(aPlus + o.aPlus, a + o.a, b + o.b, c + o.c, d + o.d, f + o.f)
    }
  }

  const EmptyHistogram := Histogram(0, 0, 0, 0, 0, 0)

  /** Recording a listed grade moves only that slot, by one; an unlisted
      grade leaves the histogram alone. */
  lemma RecordCounts(h: Histogram, s: GradeSlot)
    ensures h.Record(s).Total() == h.Total() + (if s != Unlisted then 1 else 0)
    ensures forall t: GradeSlot :: t != Unlisted ==> h.Record(s).Count(t) == h.Count(t) + (if t == s then 1 else 0)
  {
  }

  /** total_score_sum, count and grades of one statistics entry. */
  datatype Bucket = Bucket(sum: real, count: nat, grades: Histogram)

  const EmptyBucket := Bucket(0.0, 0, EmptyHistogram)

  /** One record added to a bucket (analyze_csv.php:93-97 and 107-111). */
  function Add(bk: Bucket, r: MarkRecord): Bucket {
    Bucket(bk.sum + r.total, bk.count + 1, bk.grades.Record(SlotOf(r.grade)))
  }

  function Plus(x: Bucket, y: Bucket): Bucket {
    Bucket(x.sum + y.sum, x.count + y.count, x.grades.Plus(y.grades))
  }

  lemma PlusRecordOnEmpty(h: Histogram, s: GradeSlot)
    ensures h.Plus(EmptyHistogram.Record(s)) == h.Record(s)
  {
    match s
    case SlotAPlus =>
    case SlotA =>
    case SlotB =>
    case SlotC =>
    case SlotD =>
    case SlotF =>
    case Unlisted =>
  }

  /** Adding a one-record bucket is adding that record. */
  lemma PlusSingle(x: Bucket, r: MarkRecord)
    ensures Plus(x, Add(EmptyBucket, r)) == Add(x, r)
  {
    PlusRecordOnEmpty(x.grades, SlotOf(r.grade));
  }

  /** The bucket of a sequence of records: each one added in turn. */
  function BucketOf(recs: seq<MarkRecord>): Bucket
    decreases |recs|
  {
    if recs == [] then EmptyBucket else Add(BucketOf(recs[..|recs| - 1]), recs[|recs| - 1])
  }

  /** The record's grade is one of the six labels. */
  predicate KnownGrade(r: MarkRecord) {
    SlotOf(r.grade) != Unlisted
  }

  /** Number of records whose grade is not one of the six labels. */
  function UnlistedCount(recs: seq<MarkRecord>): (n: nat)
    ensures n <= |recs|
    ensures n > 0 <==> exists i :: 0 <= i < |recs| && !KnownGrade(recs[i])
    decreases |recs|
  {
    if recs == [] then 0
    else
      var init := recs[..|recs| - 1];
      assert forall i :: 0 <= i < |init| ==> init[i] == recs[i];
      UnlistedCount(init) + (if KnownGrade(recs[|recs| - 1]) then 0 else 1)
  }

  /** A bucket counts every record and adds every total; its histogram counts
      exactly the records whose grade is one of the six labels, so it falls
      short of the count exactly when some record has another grade. */
  lemma {:induction false} BucketOfCounts(recs: seq<MarkRecord>)
    ensures BucketOf(recs).count == |recs|
    ensures BucketOf(recs).grades.Total() + UnlistedCount(recs) == |recs|
    decreases |recs|
  {
    if recs != [] {
      BucketOfCounts(recs[..|recs| - 1]);
      RecordCounts(BucketOf(recs[..|recs| - 1]).grades, SlotOf(recs[|recs| - 1].grade));
    }
  }

  /** The records of one course, in input order. */
  function ForCourse(recs: seq<MarkRecord>, code: string): (rs: seq<MarkRecord>)
    ensures |rs| <= |recs|
    ensures forall i :: 0 <= i < |rs| ==> rs[i].courseCode == code
    decreases |recs|
  {
    if recs == [] then []
    else
      var last := recs[|recs| - 1];
      ForCourse(recs[..|recs| - 1], code) + (if last.courseCode == code then [last] else [])
  }

  lemma {:induction false} ForCourseNone(recs: seq<MarkRecord>, code: string)
    requires forall i :: 0 <= i < |recs| ==> recs[i].courseCode != code
    ensures ForCourse(recs, code) == []
    decreases |recs|
  {
    if recs != [] { ForCourseNone(recs[..|recs| - 1], code); }
  }

  /** $courses[$code] for one course code. */
  datatype CourseBucket = CourseBucket(code: string, bucket: Bucket)

  /** $overallStats and $courses, the latter in PHP's insertion order. */
  datatype Stats = Stats(overall: Bucket, courses: seq<CourseBucket>)

  predicate DistinctCodes(cs: seq<CourseBucket>) {
    forall i, j :: 0 <= i < j < |cs| ==> cs[i].code != cs[j].code
  }

  /** Position of the bucket for code, or |cs| when there is none yet. */
  function CodeIndex(cs: seq<CourseBucket>, code: string): (i: nat)
    ensures i <= |cs|
    ensures i < |cs| ==> cs[i].code == code
    ensures i == |cs| ==> forall k :: 0 <= k < |cs| ==> cs[k].code != code
  {
    if |cs| == 0 then 0
    else if cs[0].code == code then 0
    else 1 + CodeIndex(cs[1..], code)
  }

  /** One validated record aggregated: into the overall bucket and into the
      course bucket, which is created empty at the end on first sight of the
      code (analyze_csv.php:92-111). */
  function Ingest(st: Stats, r: MarkRecord): Stats {
    var i := CodeIndex(st.courses, r.courseCode);
    var courses :=
      if i == |st.courses| then st.courses + [CourseBucket(r.courseCode, Add(EmptyBucket, r))]
      else st.courses[i := CourseBucket(r.courseCode, Add(st.courses[i].bucket, r))];
    Stats(Add(st.overall, r), courses)
  }

  const EmptyStats := Stats(EmptyBucket, [])

  /** The statistics after aggregating recs in order. */
  function Aggregate(recs: seq<MarkRecord>): Stats
    decreases |recs|
  {
    if recs == [] then EmptyStats else Ingest(Aggregate(recs[..|recs| - 1]), recs[|recs| - 1])
  }

  lemma AggregateSnoc(recs: seq<MarkRecord>, r: MarkRecord)
    ensures Aggregate(recs + [r]) == Ingest(Aggregate(recs), r)
  {
    assert (recs + [r])[..|recs|] == recs;
  }

  /** The sum of the buckets of a list of courses. */
  function SumBuckets(cs: seq<CourseBucket>): Bucket
    decreases |cs|
  {
    if cs == [] then EmptyBucket else Plus(cs[0].bucket, SumBuckets(cs[1..]))
  }

  lemma {:induction false} SumBucketsAppend(cs: seq<CourseBucket>, c: CourseBucket)
    ensures SumBuckets(cs + [c]) == Plus(SumBuckets(cs), c.bucket)
    decreases |cs|
  {
    if cs != [] {
      SumBucketsAppend(cs[1..], c);
      assert (cs + [c])[1..] == cs[1..] + [c];
    }
  }

  lemma {:induction false} SumBucketsAddAt(cs: seq<CourseBucket>, i: nat, r: MarkRecord)
    requires i < |cs|
    ensures SumBuckets(cs[i := CourseBucket(cs[i].code, Add(cs[i].bucket, r))]) == Add(SumBuckets(cs), r)
    decreases |cs|
  {
    var cs' := cs[i := CourseBucket(cs[i].code, Add(cs[i].bucket, r))];
    if i > 0 {
      SumBucketsAddAt(cs[1..], i - 1, r);
      assert cs'[1..] == cs[1..][i - 1 := CourseBucket(cs[i].code, Add(cs[i].bucket, r))];
      PlusAddRight(cs[0].bucket, SumBuckets(cs[1..]), r);
    } else {
      assert cs'[1..] == cs[1..];
      PlusAddLeft(cs[0].bucket, SumBuckets(cs[1..]), r);
    }
  }

  /** Adding a record to either side of a sum adds it to the sum. */
  lemma PlusAddLeft(x: Bucket, y: Bucket, r: MarkRecord)
    ensures Plus(Add(x, r), y) == Add(Plus(x, y), r)
  {
    match SlotOf(r.grade)
    case SlotAPlus =>
    case SlotA =>
    case SlotB =>
    case SlotC =>
    case SlotD =>
    case SlotF =>
    case Unlisted =>
  }

  lemma PlusAddRight(x: Bucket, y: Bucket, r: MarkRecord)
    ensures Plus(x, Add(y, r)) == Add(Plus(x, y), r)
  {
    match SlotOf(r.grade)
    case SlotAPlus =>
    case SlotA =>
    case SlotB =>
    case SlotC =>
    case SlotD =>
    case SlotF =>
    case Unlisted =>
  }

  /** cs holds one bucket per course code of recs, each the bucket of exactly
      that course's records. */
  ghost predicate Describes(cs: seq<CourseBucket>, recs: seq<MarkRecord>) {
    DistinctCodes(cs) && Covers(cs, recs) && BucketsMatch(cs, recs)
  }

  /** Every record's course code has a bucket. */
  ghost predicate Covers(cs: seq<CourseBucket>, recs: seq<MarkRecord>) {
    forall i :: 0 <= i < |recs| ==> HasBucket(cs, recs[i].courseCode)
  }

  ghost predicate HasBucket(cs: seq<CourseBucket>, code: string) {
    exists k :: 0 <= k < |cs| && cs[k].code == code
  }

  /** Each bucket is the bucket of exactly its course's records. */
  ghost predicate BucketsMatch(cs: seq<CourseBucket>, recs: seq<MarkRecord>) {
    forall k :: 0 <= k < |cs| ==> cs[k].bucket == BucketOf(ForCourse(recs, cs[k].code))
  }

  lemma ForCourseSnoc(recs: seq<MarkRecord>, r: MarkRecord, code: string)
    ensures ForCourse(recs + [r], code) == ForCourse(recs, code) + (if r.courseCode == code then [r] else [])
  {
    assert (recs + [r])[..|recs|] == recs;
  }

  lemma BucketOfSnoc(recs: seq<MarkRecord>, r: MarkRecord)
    ensures BucketOf(recs + [r]) == Add(BucketOf(recs), r)
  {
    assert (recs + [r])[..|recs|] == recs;
  }

  lemma NewCourseCovers(cs: seq<CourseBucket>, recs: seq<MarkRecord>, r: MarkRecord)
    requires Covers(cs, recs)
    ensures Covers(cs + [CourseBucket(r.courseCode, Add(EmptyBucket, r))], recs + [r])
  {
    var cs' := cs + [CourseBucket(r.courseCode, Add(EmptyBucket, r))];
    var recs' := recs + [r];
    forall j | 0 <= j < |recs'| ensures HasBucket(cs', recs'[j].courseCode) {
      if j < |recs| {
        assert recs'[j] == recs[j];
        var k :| 0 <= k < |cs| && cs[k].code == recs[j].courseCode;
        assert cs'[k] == cs[k];
      } else {
        assert cs'[|cs|].code == recs'[j].courseCode;
      }
    }
  }

  /** A course code that no bucket has belongs to no covered record. */
  lemma UncoveredCode(cs: seq<CourseBucket>, recs: seq<MarkRecord>, code: string)
    requires Covers(cs, recs)
    requires forall k :: 0 <= k < |cs| ==> cs[k].code != code
    ensures forall i :: 0 <= i < |recs| ==> recs[i].courseCode != code
  {
    forall i | 0 <= i < |recs| ensures recs[i].courseCode != code {
      var k :| 0 <= k < |cs| && cs[k].code == recs[i].courseCode;
    }
  }

  /** The first record of a course is that course's only record so far. */
  lemma ForCourseFirst(recs: seq<MarkRecord>, r: MarkRecord)
    requires forall i :: 0 <= i < |recs| ==> recs[i].courseCode != r.courseCode
    ensures BucketOf(ForCourse(recs + [r], r.courseCode)) == Add(EmptyBucket, r)
  {
    ForCourseNone(recs, r.courseCode);
    ForCourseSnoc(recs, r, r.courseCode);
    BucketOfSnoc([], r);
  }

  lemma NewCourseBuckets(cs: seq<CourseBucket>, recs: seq<MarkRecord>, r: MarkRecord)
    requires BucketsMatch(cs, recs)
    requires forall k :: 0 <= k < |cs| ==> cs[k].code != r.courseCode
    requires forall i :: 0 <= i < |recs| ==> recs[i].courseCode != r.courseCode
    ensures BucketsMatch(cs + [CourseBucket(r.courseCode, Add(EmptyBucket, r))], recs + [r])
  {
    var cs' := cs + [CourseBucket(r.courseCode, Add(EmptyBucket, r))];
    var recs' := recs + [r];
    ForCourseFirst(recs, r);
    forall k | 0 <= k < |cs'|
      ensures cs'[k].bucket == BucketOf(ForCourse(recs', cs'[k].code))
    {
      if k < |cs| {
        assert cs'[k] == cs[k];
        ForCourseSnoc(recs, r, cs[k].code);
        assert ForCourse(recs', cs[k].code) == ForCourse(recs, cs[k].code);
      } else {
        assert cs'[k].code == r.courseCode;
        assert cs'[k].bucket == Add(EmptyBucket, r);
      }
    }
  }

  lemma IngestNewCourse(cs: seq<CourseBucket>, recs: seq<MarkRecord>, r: MarkRecord)
    requires Describes(cs, recs)
    requires CodeIndex(cs, r.courseCode) == |cs|
    ensures Describes(cs + [CourseBucket(r.courseCode, Add(EmptyBucket, r))], recs + [r])
  {
    NewCourseCovers(cs, recs, r);
    UncoveredCode(cs, recs, r.courseCode);
    NewCourseBuckets(cs, recs, r);
  }

  lemma KnownCourseBuckets(cs: seq<CourseBucket>, recs: seq<MarkRecord>, r: MarkRecord, i: nat)
    requires DistinctCodes(cs) && BucketsMatch(cs, recs)
    requires i < |cs| && cs[i].code == r.courseCode
    ensures BucketsMatch(cs[i := CourseBucket(r.courseCode, Add(cs[i].bucket, r))], recs + [r])
  {
    var cs' := cs[i := CourseBucket(r.courseCode, Add(cs[i].bucket, r))];
    var recs' := recs + [r];
    forall k | 0 <= k < |cs'|
      ensures cs'[k].bucket == BucketOf(ForCourse(recs', cs'[k].code))
    {
      ForCourseSnoc(recs, r, cs[k].code);
      if k == i {
        var f := ForCourse(recs, cs[i].code);
        assert cs[i].bucket == BucketOf(f);
        BucketOfSnoc(f, r);
        assert ForCourse(recs', cs'[i].code) == f + [r];
      } else {
        assert cs'[k] == cs[k];
        assert cs[k].code != r.courseCode;
        var f := ForCourse(recs, cs[k].code);
        assert f + [] == f;
      }
    }
  }

  lemma KnownCourseCovers(cs: seq<CourseBucket>, recs: seq<MarkRecord>, r: MarkRecord, i: nat)
    requires Covers(cs, recs)
    requires i < |cs| && cs[i].code == r.courseCode
    ensures Covers(cs[i := CourseBucket(r.courseCode, Add(cs[i].bucket, r))], recs + [r])
  {
    var cs' := cs[i := CourseBucket(r.courseCode, Add(cs[i].bucket, r))];
    var recs' := recs + [r];
    forall j | 0 <= j < |recs'| ensures HasBucket(cs', recs'[j].courseCode) {
      if j < |recs| {
        assert recs'[j] == recs[j];
        var k :| 0 <= k < |cs| && cs[k].code == recs[j].courseCode;
        assert cs'[k].code == cs[k].code;
      } else {
        assert cs'[i].code == recs'[j].courseCode;
      }
    }
  }

  lemma IngestKnownCourse(cs: seq<CourseBucket>, recs: seq<MarkRecord>, r: MarkRecord, i: nat)
    requires Describes(cs, recs)
    requires i < |cs| && cs[i].code == r.courseCode
    ensures Describes(cs[i := CourseBucket(r.courseCode, Add(cs[i].bucket, r))], recs + [r])
  {
    KnownCourseBuckets(cs, recs, r, i);
    KnownCourseCovers(cs, recs, r, i);
  }

  /** Every record lands in the bucket of its course code; that bucket is the
      bucket of exactly that course's records; the codes are distinct. */
  lemma {:induction false} AggregateDescribes(recs: seq<MarkRecord>)
    ensures Describes(Aggregate(recs).courses, recs)
    decreases |recs|
  {
    if recs != [] {
      var init := recs[..|recs| - 1];
      var r := recs[|recs| - 1];
      AggregateDescribes(init);
      var cs := Aggregate(init).courses;
      var i := CodeIndex(cs, r.courseCode);
      assert recs == init + [r];
      if i == |cs| {
        IngestNewCourse(cs, init, r);
      } else {
        IngestKnownCourse(cs, init, r, i);
      }
    }
  }

  /** Every record's course code has a bucket. */
  lemma AggregateCovers(recs: seq<MarkRecord>)
    ensures Covers(Aggregate(recs).courses, recs)
  {
    AggregateDescribes(recs);
  }

  /** The overall bucket is the bucket of all records and also the sum of the
      course buckets, none of which is empty. */
  lemma {:induction false} AggregateConserves(recs: seq<MarkRecord>)
    ensures Aggregate(recs).overall == BucketOf(recs)
    ensures Aggregate(recs).overall == SumBuckets(Aggregate(recs).courses)
    ensures forall k :: 0 <= k < |Aggregate(recs).courses| ==> Aggregate(recs).courses[k].bucket.count > 0
    decreases |recs|
  {
    if recs != [] {
      var init := recs[..|recs| - 1];
      var r := recs[|recs| - 1];
      AggregateConserves(init);
      var cs := Aggregate(init).courses;
      var i := CodeIndex(cs, r.courseCode);
      if i == |cs| {
        SumBucketsAppend(cs, CourseBucket(r.courseCode, Add(EmptyBucket, r)));
        PlusSingle(SumBuckets(cs), r);
      } else {
        SumBucketsAddAt(cs, i, r);
      }
    }
  }

  // ---------------------------------------------------------------------------
  // Averages and ordering (analyze_csv.php:128-135)
  // ---------------------------------------------------------------------------

  /** A bucket with its average_score. */
  datatype Averaged = Averaged(stats: Bucket, average: real)

  /** average_score = total_score_sum / count, or 0 when count is 0 (the
      rounding to two decimals is not modelled); FinalizeAverage says what
      the average is. */
  function Finalize(bk: Bucket): Averaged {
    Averaged(bk, if bk.count > 0 then bk.sum / (bk.count as real) else 0.0)
  }

  /** The average times the count gives back the sum; an empty bucket averages 0. */
  lemma FinalizeAverage(bk: Bucket)
    ensures Finalize(bk).stats == bk
    ensures bk.count > 0 ==> Finalize(bk).average * (bk.count as real) == bk.sum
    ensures bk.count == 0 ==> Finalize(bk).average == 0.0
  {
  }

  /** One entry of the result's `courses`, keyed by course code. */
  datatype CourseResult = CourseResult(code: string, result: Averaged)

  function ResultCode(c: CourseResult): string {
    c.code
  }

  /** The sum of the buckets behind a list of course results. */
  function SumResults(cs: seq<CourseResult>): Bucket
    decreases |cs|
  {
    if cs == [] then EmptyBucket else Plus(cs[0].result.stats, SumResults(cs[1..]))
  }

  lemma {:induction false} SumResultsInsert(x: CourseResult, t: seq<CourseResult>)
    ensures SumResults(Sorting.Insert(x, t, ResultCode)) == Plus(x.result.stats, SumResults(t))
    decreases |t|
  {
    if t != [] && !StrLe(ResultCode(x), ResultCode(t[0])) {
      SumResultsInsert(x, t[1..]);
    }
  }

  /** ksort() reorders the courses without changing their total. */
  lemma {:induction false} SumResultsSorted(cs: seq<CourseResult>)
    ensures SumResults(Sorting.SortBy(cs, ResultCode)) == SumResults(cs)
    decreases |cs|
  {
    if cs != [] {
      SumResultsSorted(cs[1..]);
      SumResultsInsert(cs[0], Sorting.SortBy(cs[1..], ResultCode));
    }
  }
}
