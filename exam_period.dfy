/** The exam-period inputs of process/process_schedule.py: the available exam
    dates of get_available_dates (lines 25-54), the conflicting course pairs
    of find_conflicting_courses (lines 123-143) and the pipeline of the main
    block that stops at the first step reporting an error (lines 234-279).
    A date is held as its proleptic Gregorian ordinal, as Python's
    date.toordinal() gives it: 0001-01-01 is day 1, and adding
    timedelta(days=1) adds one to the ordinal. */
module ExamPeriod {
  import opened Text
  import opened Wrappers

  // ---------------------------------------------------------------------------
  // The calendar of Python's datetime.date
  // ---------------------------------------------------------------------------

  const MinYear := 1
  const MaxYear := 9999
  /** The ordinal of 9999-12-31, the last day a date can hold. */
  const MaxOrdinal := 3652059

  predicate IsLeap(y: int) {
    y % 4 == 0 && (y % 100 != 0 || y % 400 == 0)
  }

  function DaysInYear(y: int): int {
    if IsLeap(y) then 366 else 365
  }

  function DaysInMonth(y: int, m: int): int
    requires 1 <= m <= 12
  {
    if m == 2 then (if IsLeap(y) then 29 else 28)
    else if m == 4 || m == 6 || m == 9 || m == 11 then 30
    else 31
  }

  /** Days in the years before y. */
  function DaysBeforeYear(y: int): int
    requires y >= 1
  {
    var y1 := y - 1;
    y1 * 365 + y1 / 4 - y1 / 100 + y1 / 400
  }

  /** Days in the months of year y before month m. */
  function DaysBeforeMonth(y: int, m: int): int
    requires 1 <= m <= 12
  {
    [0, 31, 59, 90, 120, 151, 181, 212, 243, 273, 304, 334][m - 1]
    + (if m > 2 && IsLeap(y) then 1 else 0)
  }

  /** The range checks of the date constructor. */
  predicate ValidDate(y: int, m: int, d: int) {
    MinYear <= y <= MaxYear && 1 <= m <= 12 && 1 <= d <= DaysInMonth(y, m)
  }

  function Ordinal(y: int, m: int, d: int): int
    requires ValidDate(y, m, d)
  {
    DaysBeforeYear(y) + DaysBeforeMonth(y, m) + d
  }

  /** date.weekday(): Monday is 0, and day 1 was a Monday. */
  function Weekday(day: int): int {
    (day + 6) % 7
  }

  predicate IsFriday(day: int) {
    Weekday(day) == 4
  }

  /** A year adds its own length to the days before it. */
  lemma YearLength(y: int)
    requires y >= 1
    ensures DaysBeforeYear(y + 1) == DaysBeforeYear(y) + DaysInYear(y)
  {
    DivBefore(y, 4);
    DivBefore(y, 100);
    DivBefore(y, 400);
    PeriodsNest(y);
    assert DaysBeforeYear(y + 1) == y * 365 + y / 4 - y / 100 + y / 400;
    assert DaysBeforeYear(y) == (y - 1) * 365 + (y - 1) / 4 - (y - 1) / 100 + (y - 1) / 400;
  }

  /** A multiple of 400 is one of 100, and a multiple of 100 is one of 4. */
  lemma PeriodsNest(y: int)
    ensures y % 400 == 0 ==> y % 100 == 0
    ensures y % 100 == 0 ==> y % 4 == 0
  {
    if y % 400 == 0 {
      MultipleOf(y, 400, 100, 4);
    }
    if y % 100 == 0 {
      MultipleOf(y, 100, 4, 25);
    }
  }

  /** A multiple of n = d * f is a multiple of d. */
  lemma MultipleOf(y: int, n: int, d: int, f: int)
    requires (n == 400 && d == 100 && f == 4) || (n == 100 && d == 4 && f == 25)
    requires y % n == 0
    ensures y % d == 0
  {
    var q := y / n;
    assert y == n * q;
    assert y == d * (f * q);
    var m := f * q;
    assert y == d * (y / d) + y % d;
    assert d * (m - y / d) == y % d;
  }

  /** Dividing the year before y by one of the calendar's periods: one less
      exactly when the period divides y. */
  lemma DivBefore(y: int, n: int)
    requires y >= 1 && (n == 4 || n == 100 || n == 400)
    ensures (y - 1) / n == if y % n == 0 then y / n - 1 else y / n
  {
    if n == 4 {
      assert y == 4 * (y / 4) + y % 4;
    } else if n == 100 {
      assert y == 100 * (y / 100) + y % 100;
    } else {
      assert y == 400 * (y / 400) + y % 400;
    }
  }

  /** The days before a year grow with the year. */
  lemma {:induction false} DaysBeforeYearMonotone(a: int, b: int)
    requires 1 <= a <= b
    ensures DaysBeforeYear(a) + 365 * (b - a) <= DaysBeforeYear(b)
    decreases b - a
  {
    if a < b {
      DaysBeforeYearMonotone(a, b - 1);
      YearLength(b - 1);
    }
  }

  /** The months before m and month m itself fit in the year. */
  lemma MonthsFit(y: int, m: int)
    requires 1 <= m <= 12
    ensures DaysBeforeMonth(y, m) + DaysInMonth(y, m) <= DaysInYear(y)
    ensures m < 12 ==> DaysBeforeMonth(y, m + 1) == DaysBeforeMonth(y, m) + DaysInMonth(y, m)
  {
  }

  /** Every valid date has an ordinal between 1 and MaxOrdinal. */
  lemma OrdinalBounds(y: int, m: int, d: int)
    requires ValidDate(y, m, d)
    ensures 1 <= Ordinal(y, m, d) <= MaxOrdinal
    ensures DaysBeforeYear(y) < Ordinal(y, m, d) <= DaysBeforeYear(y + 1)
  {
    MonthsFit(y, m);
    YearLength(y);
    DaysBeforeYearMonotone(1, y);
    DaysBeforeYearMonotone(y + 1, MaxYear + 1);
    assert DaysBeforeYear(MaxYear + 1) == MaxOrdinal;
  }

  /** Python compares dates by (year, month, day); the ordinals keep that
      order, so comparing and collecting ordinals is comparing and collecting
      the dates. */
  lemma OrdinalOrder(y: int, m: int, d: int, y': int, m': int, d': int)
    requires ValidDate(y, m, d) && ValidDate(y', m', d')
    ensures Ordinal(y, m, d) < Ordinal(y', m', d') <==>
      y < y' || (y == y' && (m < m' || (m == m' && d < d')))
    ensures Ordinal(y, m, d) == Ordinal(y', m', d') <==> y == y' && m == m' && d == d'
  {
    OrdinalBounds(y, m, d);
    OrdinalBounds(y', m', d');
    if y < y' {
      DaysBeforeYearMonotone(y + 1, y');
    } else if y' < y {
      DaysBeforeYearMonotone(y' + 1, y);
    } else if m < m' {
      MonthsBefore(y, m, m');
    } else if m' < m {
      MonthsBefore(y, m', m);
    }
  }

  /** A later month starts after the whole of an earlier one. */
  lemma {:induction false} MonthsBefore(y: int, m: int, m': int)
    requires 1 <= m < m' <= 12
    ensures DaysBeforeMonth(y, m) + DaysInMonth(y, m) <= DaysBeforeMonth(y, m')
    decreases m' - m
  {
    MonthsFit(y, m);
    if m + 1 < m' {
      MonthsBefore(y, m + 1, m');
    }
  }

  // ---------------------------------------------------------------------------
  // date.fromisoformat and date.isoformat
  // ---------------------------------------------------------------------------

  /** The YYYY-MM-DD shape: ten characters, ASCII digits around two dashes. */
  predicate IsoShape(s: string) {
    |s| == 10 && s[4] == '-' && s[7] == '-'
    && AllDigits(s[..4]) && AllDigits(s[5..7]) && AllDigits(s[8..])
  }

  /** date.fromisoformat(s) (process/process_schedule.py:29, 30, 38): the
      ordinal of the date s spells, or None where Python raises ValueError
      (a wrong shape, or a year, month or day out of range). */
  function ParseIsoDate(s: string): (r: Option<int>)
    ensures r.Some? ==> IsoShape(s) && 1 <= r.value <= MaxOrdinal
  {
    if !IsoShape(s) then None
    else
      var y, m, d := DigitsValue(s[..4]), DigitsValue(s[5..7]), DigitsValue(s[8..]);
      if ValidDate(y, m, d) then
        OrdinalBounds(y, m, d);
        Some(Ordinal(y, m, d))
      else None
  }

  /** n written with exactly w digits, padded with leading zeros. */
  function Padded(n: nat, w: nat): (s: string)
    ensures |s| == w && AllDigits(s)
  {
    if w == 0 then [] else Padded(n / 10, w - 1) + [('0' as int + n % 10) as char]
  }

  lemma {:induction false} PaddedValue(n: nat, w: nat)
    requires n < Pow10(w)
    ensures DigitsValue(Padded(n, w)) == n
  {
    if w > 0 {
      PaddedValue(n / 10, w - 1);
      assert Padded(n, w)[..w - 1] == Padded(n / 10, w - 1);
    }
  }

  /** date.isoformat(): the form the available dates are written in. */
  function IsoFormat(y: int, m: int, d: int): string
    requires ValidDate(y, m, d)
  {
    Padded(y, 4) + "-" + Padded(m, 2) + "-" + Padded(d, 2)
  }

  /** Reading back a written date gives the same day. */
  lemma IsoRoundTrip(y: int, m: int, d: int)
    requires ValidDate(y, m, d)
    ensures ParseIsoDate(IsoFormat(y, m, d)) == Some(Ordinal(y, m, d))
  {
    var s := IsoFormat(y, m, d);
    PaddedValue(y, 4);
    PaddedValue(m, 2);
    PaddedValue(d, 2);
    assert s[..4] == Padded(y, 4);
    assert s[5..7] == Padded(m, 2);
    assert s[8..] == Padded(d, 2);
  }

  /** 2024-08-23 is read as a Friday, so it is never an exam date. */
  lemma FridayExample(s: string)
    requires s == "2024-08-23"
    ensures ParseIsoDate(s) == Some(739121)
    ensures IsFriday(739121)
  {
    assert s[..4] == "2024" && s[5..7] == "08" && s[8..] == "23";
    assert DigitsValue("2") == 2 by { assert "2"[..0] == ""; }
    assert DigitsValue("20") == 20 by { assert "20"[..1] == "2"; }
    assert DigitsValue("202") == 202 by { assert "202"[..2] == "20"; }
    assert DigitsValue("2024") == 2024 by { assert "2024"[..3] == "202"; }
    assert DigitsValue("0") == 0 by { assert "0"[..0] == ""; }
    assert DigitsValue("08") == 8 by { assert "08"[..1] == "0"; }
    assert DigitsValue("23") == 23 by { assert "23"[..1] == "2"; }
  }

  // ---------------------------------------------------------------------------
  // get_available_dates (lines 25-54)
  // ---------------------------------------------------------------------------

  /** One item of the holidays string (lines 36-38): stripped, then parsed. */
  function HolidayOf(item: string): Option<int> {
    ParseIsoDate(PyStrip(item))
  }

  /** The days that parse yields for the items, in a fold over the items;
      an item it rejects is skipped (lines 39-40). */
  function DaysIn(items: seq<string>, parse: string -> Option<int>): set<int> {
    if items == [] then {}
    else
      var rest := DaysIn(items[..|items| - 1], parse);
      match parse(items[|items| - 1])
      case Some(day) => rest + {day}
      case None => rest
  }

  /** Lines 33-40: no holidays for an empty string, otherwise the items
      between commas. */
  function Holidays(holidaysStr: string): (holidays: set<int>)
    ensures holidaysStr == "" ==> holidays == {}
    ensures forall day :: day in holidays ==> 1 <= day <= MaxOrdinal
  {
    if holidaysStr == "" then {}
    else
      HolidaysInRange(Split(holidaysStr, ','));
      DaysIn(Split(holidaysStr, ','), HolidayOf)
  }

  /** Every day a holiday item parses to is a day of the calendar. */
  lemma {:induction false} HolidaysInRange(items: seq<string>)
    ensures forall day :: day in DaysIn(items, HolidayOf) ==> 1 <= day <= MaxOrdinal
    decreases |items|
  {
    if items != [] {
      HolidaysInRange(items[..|items| - 1]);
    }
  }

  method ParseHolidays(holidaysStr: string) returns (holidays: set<int>)
    ensures holidays == Holidays(holidaysStr)
  {
    holidays := {};
    if holidaysStr != "" {
      var items := Split(holidaysStr, ',');
      var i := 0;
      while i < |items|
        invariant 0 <= i <= |items|
        invariant holidays == DaysIn(items[..i], HolidayOf)
      {
        assert items[..i + 1][..i] == items[..i];
        var parsed := HolidayOf(items[i]);
        if parsed.Some? {
          holidays := holidays + {parsed.value};
        }
        i := i + 1;
      }
      assert items[..|items|] == items;
    }
  }

  lemma {:induction false} DaysInExactly(items: seq<string>, parse: string -> Option<int>, day: int)
    ensures day in DaysIn(items, parse) <==>
      exists k :: 0 <= k < |items| && parse(items[k]) == Some(day)
  {
    if items != [] {
      var init := items[..|items| - 1];
      var n := |items| - 1;
      DaysInExactly(init, parse, day);
      var last := parse(items[n]);
      assert DaysIn(items, parse) == DaysIn(init, parse) + (if last.Some? then {last.value} else {});
      if day in DaysIn(items, parse) {
        if day in DaysIn(init, parse) {
          var k :| 0 <= k < |init| && parse(init[k]) == Some(day);
          assert items[k] == init[k];
        } else {
          assert last == Some(day);
        }
      } else {
        forall k | 0 <= k < |items|
          ensures parse(items[k]) != Some(day)
        {
          if k < n {
            assert items[k] == init[k];
          }
        }
      }
    }
  }

  /** A day is a holiday exactly when some comma-separated item, once
      stripped, parses to it; the guard on the empty string changes nothing,
      since an empty item never parses. */
  lemma HolidaysExactly(holidaysStr: string, day: int)
    ensures day in Holidays(holidaysStr) <==>
      exists item :: item in Split(holidaysStr, ',') && ParseIsoDate(PyStrip(item)) == Some(day)
  {
    var items := Split(holidaysStr, ',');
    if holidaysStr == "" {
      SplitJoin([""], ',');
      assert items == [""];
      EmptyItemNoDay();
    } else {
      DaysInExactly(items, HolidayOf, day);
      SomeItemParses(items, day);
    }
  }

  /** An empty item never parses to a day. */
  lemma EmptyItemNoDay()
    ensures ParseIsoDate(PyStrip("")) == None
  {
    TrimByNoop("", IsPySpace);
  }

  /** Some item parses to day, by index or by membership. */
  lemma SomeItemParses(items: seq<string>, day: int)
    ensures (exists k :: 0 <= k < |items| && HolidayOf(items[k]) == Some(day)) <==>
      exists item :: item in items && ParseIsoDate(PyStrip(item)) == Some(day)
  {
    if exists item :: item in items && ParseIsoDate(PyStrip(item)) == Some(day) {
      var item :| item in items && ParseIsoDate(PyStrip(item)) == Some(day);
      var k :| 0 <= k < |items| && items[k] == item;
      assert HolidayOf(items[k]) == Some(day);
    }
  }

  /** A day the loop keeps: neither a Friday nor a holiday. */
  predicate IsOpen(day: int, holidays: set<int>) {
    !IsFriday(day) && day !in holidays
  }

  /** The days the loop of lines 42-47 appends for the range start..end. */
  function OpenDays(start: int, end: int, holidays: set<int>): (days: seq<int>)
    ensures |days| <= if end < start then 0 else end - start + 1
    ensures forall k :: 0 <= k < |days| ==> IsOpen(days[k], holidays)
    decreases end - start
  {
    if end < start then []
    else OpenDays(start, end - 1, holidays) + (if IsOpen(end, holidays) then [end] else [])
  }

  /** What get_available_dates returns: {"error": message} or {"dates": ...}. */
  datatype DatesResult = DatesError(message: string) | Dates(days: seq<int>)

  const InvalidFormatMessage := "Invalid date format. Please use YYYY-MM-DD."
  /** Stepping past 9999-12-31 raises OverflowError, caught at line 51. */
  const OverflowMessage := "Error calculating dates: date value out of range"

  /** Lines 42-52 once both ends have parsed: the loop reaches 9999-12-31
      and fails to step past it exactly when end is that day. */
  function DatesBetween(start: int, end: int, holidays: set<int>): DatesResult {
    if start <= end && end == MaxOrdinal then DatesError(OverflowMessage)
    else Dates(OpenDays(start, end, holidays))
  }

  function AvailableDates(startStr: string, endStr: string, holidaysStr: string): DatesResult {
    match (ParseIsoDate(startStr), ParseIsoDate(endStr))
    case (Some(start), Some(end)) => DatesBetween(start, end, Holidays(holidaysStr))
    case _ => DatesError(InvalidFormatMessage)
  }

  /** Lines 25-54. */
  method GetAvailableDates(startStr: string, endStr: string, holidaysStr: string)
      returns (result: DatesResult)
    ensures result == AvailableDates(startStr, endStr, holidaysStr)
  {
    var start := ParseIsoDate(startStr);
    var end := ParseIsoDate(endStr);
    if start.None? || end.None? {
      return DatesError(InvalidFormatMessage);
    }
    var holidays := ParseHolidays(holidaysStr);
    result := CollectDates(start.value, end.value, holidays);
  }

  /** The stepping loop of lines 42-47, with the overflow of line 47. */
  method CollectDates(start: int, end: int, holidays: set<int>) returns (result: DatesResult)
    requires 1 <= start <= MaxOrdinal && end <= MaxOrdinal
    ensures result == DatesBetween(start, end, holidays)
  {
    var days: seq<int> := [];
    var current := start;
    while current <= end
      invariant start <= current <= MaxOrdinal
      invariant current <= end + 1 || current == start
      invariant days == OpenDays(start, current - 1, holidays)
      decreases end - current
    {
      if !IsFriday(current) && current !in holidays {
        days := days + [current];
      }
      if current == MaxOrdinal {
        return DatesError(OverflowMessage);
      }
      current := current + 1;
    }
    return Dates(days);
  }

  /** Strictly ascending, hence free of repeats. */
  predicate Ascending(s: seq<int>) {
    forall i, j :: 0 <= i < j < |s| ==> s[i] < s[j]
  }

  /** The kept days are exactly the open days of the range. */
  lemma {:induction false} OpenDaysExactly(start: int, end: int, holidays: set<int>, day: int)
    ensures day in OpenDays(start, end, holidays) <==> start <= day <= end && IsOpen(day, holidays)
    decreases end - start
  {
    if end >= start {
      OpenDaysExactly(start, end - 1, holidays, day);
    }
  }

  /** The kept days come in strictly ascending order, so none repeats. */
  lemma {:induction false} OpenDaysAscending(start: int, end: int, holidays: set<int>)
    ensures Ascending(OpenDays(start, end, holidays))
    decreases end - start
  {
    if end >= start {
      var init := OpenDays(start, end - 1, holidays);
      var r := OpenDays(start, end, holidays);
      OpenDaysAscending(start, end - 1, holidays);
      assert r == init + (if IsOpen(end, holidays) then [end] else []);
      forall i, j | 0 <= i < j < |r|
        ensures r[i] < r[j]
      {
        if j < |init| {
          assert r[i] == init[i] && r[j] == init[j];
          assert init[i] < init[j];
        } else {
          assert r[j] == end && r[i] == init[i] && init[i] in init;
          OpenDaysExactly(start, end - 1, holidays, init[i]);
        }
      }
    }
  }

  /** The dates get_available_dates returns: every open day from start to
      end and nothing else, ascending; none when start is after end. An
      unparseable start or end gives the format error, and a range reaching
      9999-12-31 the overflow error. */
  lemma AvailableDatesExactly(startStr: string, endStr: string, holidaysStr: string)
    ensures var r := AvailableDates(startStr, endStr, holidaysStr);
      && (ParseIsoDate(startStr).None? || ParseIsoDate(endStr).None? ==>
            r == DatesError(InvalidFormatMessage))
      && (r.Dates? ==>
            var start, end := ParseIsoDate(startStr).value, ParseIsoDate(endStr).value;
            && (forall day :: day in r.days <==>
                  start <= day <= end && !IsFriday(day) && day !in Holidays(holidaysStr))
            && Ascending(r.days)
            && (start > end ==> r.days == []))
  {
    var r := AvailableDates(startStr, endStr, holidaysStr);
    if r.Dates? {
      var start, end := ParseIsoDate(startStr).value, ParseIsoDate(endStr).value;
      var holidays := Holidays(holidaysStr);
      forall day
        ensures day in r.days <==> start <= day <= end && IsOpen(day, holidays)
      {
        OpenDaysExactly(start, end, holidays, day);
      }
      OpenDaysAscending(start, end, holidays);
    }
  }

  /** The range fails exactly when start is not after end and end is
      9999-12-31, the day the step of line 47 cannot go past. */
  lemma OverflowOnLastDay(startStr: string, endStr: string, holidaysStr: string)
    requires ParseIsoDate(startStr).Some? && ParseIsoDate(endStr).Some?
    ensures AvailableDates(startStr, endStr, holidaysStr) == DatesError(OverflowMessage) <==>
      && ParseIsoDate(startStr).value <= ParseIsoDate(endStr).value
      && DigitsValue(endStr[..4]) == 9999 && DigitsValue(endStr[5..7]) == 12
      && DigitsValue(endStr[8..]) == 31
  {
    var y, m, d := DigitsValue(endStr[..4]), DigitsValue(endStr[5..7]), DigitsValue(endStr[8..]);
    OrdinalOrder(y, m, d, 9999, 12, 31);
    assert Ordinal(9999, 12, 31) == MaxOrdinal;
  }

  // ---------------------------------------------------------------------------
  // find_conflicting_courses (lines 123-143)
  // ---------------------------------------------------------------------------

  /** The enrollments dict: student ids with their course codes, in the
      dict's order. */
  type Enrollments = seq<(string, seq<string>)>

  /** The student is enrolled in the course: the course is in the student's
      list. */
  predicate Enrolled(enrollments: Enrollments, student: string, course: string) {
    exists i :: 0 <= i < |enrollments| && enrollments[i].0 == student && course in enrollments[i].1
  }

  function RowOf(student: string, courses: seq<string>): (r: seq<(string, string)>)
    ensures |r| == |courses|
    ensures forall k :: 0 <= k < |courses| ==> r[k] == (student, courses[k])
  {
    seq(|courses|, k requires 0 <= k < |courses| => (student, courses[k]))
  }

  /** The (student, course) pairs the loops of lines 126-128 visit, in
      order. */
  function Memberships(enrollments: Enrollments): seq<(string, string)> {
    if enrollments == [] then []
    else
      var last := enrollments[|enrollments| - 1];
      Memberships(enrollments[..|enrollments| - 1]) + RowOf(last.0, last.1)
  }

  /** The loops visit exactly the enrollments. */
  lemma {:induction false} MembershipsExactly(enrollments: Enrollments, student: string, course: string)
    ensures (student, course) in Memberships(enrollments) <==> Enrolled(enrollments, student, course)
  {
    if enrollments != [] {
      var n := |enrollments| - 1;
      var init := enrollments[..n];
      var row := RowOf(enrollments[n].0, enrollments[n].1);
      MembershipsExactly(init, student, course);
      assert Memberships(enrollments) == Memberships(init) + row;
      if (student, course) in Memberships(enrollments) {
        if (student, course) in Memberships(init) {
          var i :| 0 <= i < |init| && init[i].0 == student && course in init[i].1;
          assert enrollments[i] == init[i];
        } else {
          var k :| 0 <= k < |row| && row[k] == (student, course);
        }
      }
      if Enrolled(enrollments, student, course) {
        var i :| 0 <= i < |enrollments| && enrollments[i].0 == student && course in enrollments[i].1;
        if i < n {
          assert init[i] == enrollments[i];
        } else {
          var k :| 0 <= k < |enrollments[n].1| && enrollments[n].1[k] == course;
          assert row[k] == (student, course);
        }
      }
    }
  }

  /** course_pairs: the students of each course, and the order in which the
      courses first appeared, which is the order of list(course_pairs.keys()). */
  datatype Groups = Groups(students: map<string, set<string>>, order: seq<string>)

  /** course_pairs[course].add(student) on a defaultdict(set). */
  function AddMembership(g: Groups, student: string, course: string): Groups {
    if course in g.students then Groups(g.students[course := g.students[course] + {student}], g.order)
    else Groups(g.students[course := {student}], g.order + [course])
  }

  function GroupOf(ms: seq<(string, string)>): Groups {
    if ms == [] then Groups(map[], [])
    else AddMembership(GroupOf(ms[..|ms| - 1]), ms[|ms| - 1].0, ms[|ms| - 1].1)
  }

  function StudentsOf(ms: seq<(string, string)>, course: string): set<string> {
    set m | m in ms && m.1 == course :: m.0
  }

  function CoursesOf(ms: seq<(string, string)>): set<string> {
    set m | m in ms :: m.1
  }

  /** The key order lists every key once. */
  predicate WellFormed(g: Groups) {
    && (forall k :: 0 <= k < |g.order| ==> g.order[k] in g.students)
    && (forall c :: c in g.students ==> c in g.order)
    && (forall i, j :: 0 <= i < j < |g.order| ==> g.order[i] != g.order[j])
  }

  lemma StudentsSnoc(ms: seq<(string, string)>, m: (string, string), course: string)
    ensures StudentsOf(ms + [m], course) ==
      StudentsOf(ms, course) + (if m.1 == course then {m.0} else {})
  {
    var l := StudentsOf(ms + [m], course);
    var r := StudentsOf(ms, course) + (if m.1 == course then {m.0} else {});
    forall s ensures s in l <==> s in r {
      if s in l {
        var x :| x in ms + [m] && x.1 == course && x.0 == s;
      }
      if s in StudentsOf(ms, course) {
        var x :| x in ms && x.1 == course && x.0 == s;
        assert x in ms + [m];
      }
      if m.1 == course {
        assert m in ms + [m];
      }
    }
  }

  lemma CoursesSnoc(ms: seq<(string, string)>, m: (string, string))
    ensures CoursesOf(ms + [m]) == CoursesOf(ms) + {m.1}
  {
    forall c ensures c in CoursesOf(ms + [m]) <==> c in CoursesOf(ms) + {m.1} {
      if c in CoursesOf(ms + [m]) {
        var x :| x in ms + [m] && x.1 == c;
      }
      if c in CoursesOf(ms) {
        var x :| x in ms && x.1 == c;
        assert x in ms + [m];
      }
      assert m in ms + [m];
    }
  }

  /** course_pairs maps each course met to exactly its students, and
      list(course_pairs.keys()) lists each such course once. */
  lemma {:induction false} GroupOfExactly(ms: seq<(string, string)>)
    ensures WellFormed(GroupOf(ms))
    ensures GroupOf(ms).students.Keys == CoursesOf(ms)
    ensures forall c :: c in GroupOf(ms).students ==> GroupOf(ms).students[c] == StudentsOf(ms, c)
  {
    if ms != [] {
      var n := |ms| - 1;
      var init, m := ms[..n], ms[n];
      assert ms == init + [m];
      GroupOfExactly(init);
      CoursesSnoc(init, m);
      var g0, g := GroupOf(init), GroupOf(ms);
      forall c | c in g.students
        ensures g.students[c] == StudentsOf(ms, c)
      {
        StudentsSnoc(init, m, c);
      }
      if m.1 !in g0.students {
        forall i, j | 0 <= i < j < |g.order|
          ensures g.order[i] != g.order[j]
        {
          if j == |g0.order| {
            assert g.order[i] == g0.order[i];
          }
        }
      }
    }
  }

  lemma GroupSnoc(ms: seq<(string, string)>, m: (string, string))
    ensures GroupOf(ms + [m]) == AddMembership(GroupOf(ms), m.0, m.1)
  {
    assert (ms + [m])[..|ms|] == ms;
  }

  /** Lines 125-131. */
  method GroupStudents(enrollments: Enrollments) returns (g: Groups)
    ensures g == GroupOf(Memberships(enrollments))
  {
    g := Groups(map[], []);
    var i := 0;
    while i < |enrollments|
      invariant 0 <= i <= |enrollments|
      invariant g == GroupOf(Memberships(enrollments[..i]))
    {
      assert enrollments[..i + 1][..i] == enrollments[..i];
      g := AddStudent(g, enrollments[i].0, enrollments[i].1, Memberships(enrollments[..i]));
      i := i + 1;
    }
    assert enrollments[..|enrollments|] == enrollments;
  }

  /** The inner loop of lines 127-128, for one student's courses. */
  method AddStudent(g0: Groups, student: string, courses: seq<string>, ghost done: seq<(string, string)>)
      returns (g: Groups)
    requires g0 == GroupOf(done)
    ensures g == GroupOf(done + RowOf(student, courses))
  {
    g := g0;
    assert done + RowOf(student, courses[..0]) == done;
    var j := 0;
    while j < |courses|
      invariant 0 <= j <= |courses|
      invariant g == GroupOf(done + RowOf(student, courses[..j]))
    {
      var course := courses[j];
      ghost var seen := done + RowOf(student, courses[..j]);
      GroupSnoc(seen, (student, course));
      assert RowOf(student, courses[..j + 1]) == RowOf(student, courses[..j]) + [(student, course)];
      assert done + RowOf(student, courses[..j + 1]) == seen + [(student, course)];
      if course in g.students {
        g := Groups(g.students[course := g.students[course] + {student}], g.order);
      } else {
        g := Groups(g.students[course := {student}], g.order + [course]);
      }
      j := j + 1;
    }
    assert courses[..|courses|] == courses;
  }

  /** tuple(sorted((a, b))). */
  function Ordered(a: string, b: string): (string, string) {
    if StrLe(a, b) then (a, b) else (b, a)
  }

  /** The student sets of two courses intersect. */
  predicate Shares(g: Groups, a: string, b: string)
    requires a in g.students && b in g.students
  {
    g.students[a] * g.students[b] != {}
  }

  /** The pairs the inner loop adds for course i against courses i+1 .. j-1. */
  function RowPairs(g: Groups, i: int, j: int): set<(string, string)>
    requires WellFormed(g) && 0 <= i < |g.order| && j <= |g.order|
    decreases j
  {
    if j <= i + 1 then {}
    else
      RowPairs(g, i, j - 1)
      + (if Shares(g, g.order[i], g.order[j - 1]) then {Ordered(g.order[i], g.order[j - 1])} else {})
  }

  /** The pairs the outer loop has added after its first i rounds. */
  function PairsBefore(g: Groups, i: int): set<(string, string)>
    requires WellFormed(g) && 0 <= i <= |g.order|
  {
    if i == 0 then {} else PairsBefore(g, i - 1) + RowPairs(g, i - 1, |g.order|)
  }

  /** Lines 130-140. */
  method ConflictPairs(g: Groups) returns (conflicts: set<(string, string)>)
    requires WellFormed(g)
    ensures conflicts == PairsBefore(g, |g.order|)
  {
    conflicts := {};
    var i := 0;
    while i < |g.order|
      invariant 0 <= i <= |g.order|
      invariant conflicts == PairsBefore(g, i)
    {
      ghost var before := conflicts;
      var j := i + 1;
      while j < |g.order|
        invariant i + 1 <= j <= |g.order|
        invariant conflicts == before + RowPairs(g, i, j)
      {
        var a, b := g.order[i], g.order[j];
        if g.students[a] * g.students[b] != {} {
          conflicts := conflicts + {Ordered(a, b)};
        }
        j := j + 1;
      }
      i := i + 1;
    }
  }

  /** The inner loop at indices i < k adds p. */
  predicate PairAt(g: Groups, i: int, k: int, p: (string, string))
    requires WellFormed(g)
  {
    0 <= i < k < |g.order| && Shares(g, g.order[i], g.order[k]) && p == Ordered(g.order[i], g.order[k])
  }

  /** The pairs of row i up to j are the pairs PairAt finds there. */
  lemma RowPairsExactly(g: Groups, i: int, j: int, p: (string, string))
    requires WellFormed(g) && 0 <= i < |g.order| && j <= |g.order|
    ensures p in RowPairs(g, i, j) <==> exists k :: k < j && PairAt(g, i, k, p)
  {
    if p in RowPairs(g, i, j) {
      RowPairsSound(g, i, j, p);
    }
    if exists k :: k < j && PairAt(g, i, k, p) {
      var k :| k < j && PairAt(g, i, k, p);
      RowPairsComplete(g, i, j, k, p);
    }
  }

  lemma {:induction false} RowPairsSound(g: Groups, i: int, j: int, p: (string, string))
    requires WellFormed(g) && 0 <= i < |g.order| && j <= |g.order|
    requires p in RowPairs(g, i, j)
    ensures exists k :: k < j && PairAt(g, i, k, p)
    decreases j
  {
    if p in RowPairs(g, i, j - 1) {
      RowPairsSound(g, i, j - 1, p);
      var k :| k < j - 1 && PairAt(g, i, k, p);
      assert k < j && PairAt(g, i, k, p);
    } else {
      assert PairAt(g, i, j - 1, p);
    }
  }

  lemma {:induction false} RowPairsComplete(g: Groups, i: int, j: int, k: int, p: (string, string))
    requires WellFormed(g) && 0 <= i < |g.order| && j <= |g.order|
    requires k < j && PairAt(g, i, k, p)
    ensures p in RowPairs(g, i, j)
    decreases j
  {
    if k < j - 1 {
      RowPairsComplete(g, i, j - 1, k, p);
    }
  }

  /** The pairs of the first n rounds are the pairs PairAt finds in rows
      below n. */
  lemma PairsBeforeExactly(g: Groups, n: int, p: (string, string))
    requires WellFormed(g) && 0 <= n <= |g.order|
    ensures p in PairsBefore(g, n) <==> exists i, k :: i < n && PairAt(g, i, k, p)
  {
    if p in PairsBefore(g, n) {
      PairsBeforeSound(g, n, p);
    }
    if exists i, k :: i < n && PairAt(g, i, k, p) {
      var i, k :| i < n && PairAt(g, i, k, p);
      PairsBeforeComplete(g, n, i, k, p);
    }
  }

  lemma {:induction false} PairsBeforeSound(g: Groups, n: int, p: (string, string))
    requires WellFormed(g) && 0 <= n <= |g.order|
    requires p in PairsBefore(g, n)
    ensures exists i, k :: i < n && PairAt(g, i, k, p)
  {
    if p in PairsBefore(g, n - 1) {
      PairsBeforeSound(g, n - 1, p);
      var i, k :| i < n - 1 && PairAt(g, i, k, p);
      assert i < n && PairAt(g, i, k, p);
    } else {
      RowPairsSound(g, n - 1, |g.order|, p);
      var k :| k < |g.order| && PairAt(g, n - 1, k, p);
      assert n - 1 < n && PairAt(g, n - 1, k, p);
    }
  }

  lemma {:induction false} PairsBeforeComplete(g: Groups, n: int, i: int, k: int, p: (string, string))
    requires WellFormed(g) && 0 <= n <= |g.order|
    requires i < n && PairAt(g, i, k, p)
    ensures p in PairsBefore(g, n)
  {
    if i < n - 1 {
      PairsBeforeComplete(g, n - 1, i, k, p);
    } else {
      RowPairsComplete(g, n - 1, |g.order|, k, p);
    }
  }

  /** Some student is enrolled in both courses. */
  ghost predicate SharedStudent(enrollments: Enrollments, a: string, b: string) {
    exists student :: Enrolled(enrollments, student, a) && Enrolled(enrollments, student, b)
  }

  /** The set conflicts of line 140, as sorted pairs. */
  function Conflicts(enrollments: Enrollments): (pairs: set<(string, string)>)
    ensures forall p :: p in pairs ==> StrLt(p.0, p.1)
  {
    var g := GroupOf(Memberships(enrollments));
    GroupOfExactly(Memberships(enrollments));
    PairsAscending(g);
    PairsBefore(g, |g.order|)
  }

  /** Every pair the loops add is in ascending order. */
  lemma PairsAscending(g: Groups)
    requires WellFormed(g)
    ensures forall p :: p in PairsBefore(g, |g.order|) ==> StrLt(p.0, p.1)
  {
    forall p | p in PairsBefore(g, |g.order|)
      ensures StrLt(p.0, p.1)
    {
      PairsExactly(g, p.0, p.1);
    }
  }

  /** The strings of line 143; the list order follows the set's iteration
      order, so the model keeps the set. */
  function Labels(pairs: set<(string, string)>): set<string> {
    set p | p in pairs :: p.0 + " & " + p.1
  }

  /** Lines 123-143. */
  method FindConflictingCourses(enrollments: Enrollments) returns (conflicts: set<string>)
    ensures conflicts == Labels(Conflicts(enrollments))
  {
    var g := GroupStudents(enrollments);
    GroupOfExactly(Memberships(enrollments));
    var pairs := ConflictPairs(g);
    conflicts := Labels(pairs);
  }

  lemma StudentsOfMember(ms: seq<(string, string)>, student: string, course: string)
    ensures student in StudentsOf(ms, course) <==> (student, course) in ms
  {
    if (student, course) in ms {
      var m := (student, course);
      assert m in ms && m.1 == course;
    }
  }

  /** The loops add a pair exactly when its codes are two courses of
      course_pairs, in ascending order, whose student sets meet. */
  lemma {:induction false} PairsExactly(g: Groups, a: string, b: string)
    requires WellFormed(g)
    ensures (a, b) in PairsBefore(g, |g.order|) <==>
      a in g.students && b in g.students && StrLt(a, b) && Shares(g, a, b)
  {
    PairsBeforeExactly(g, |g.order|, (a, b));
    if (a, b) in PairsBefore(g, |g.order|) {
      var i, k :| i < |g.order| && PairAt(g, i, k, (a, b));
      StrLeTotal(g.order[i], g.order[k]);
    }
    if a in g.students && b in g.students && StrLt(a, b) && Shares(g, a, b) {
      var ia :| 0 <= ia < |g.order| && g.order[ia] == a;
      var ib :| 0 <= ib < |g.order| && g.order[ib] == b;
      if ia < ib {
        assert PairAt(g, ia, ib, (a, b));
      } else {
        if StrLe(b, a) {
          StrLeAntisymmetric(a, b);
        }
        assert PairAt(g, ib, ia, (a, b));
      }
    }
  }

  /** Two courses of course_pairs share a student exactly when some student
      is enrolled in both. */
  lemma SharesExactly(enrollments: Enrollments, a: string, b: string)
    ensures var ms := Memberships(enrollments);
      var g := GroupOf(ms);
      a in g.students && b in g.students && Shares(g, a, b) <==> SharedStudent(enrollments, a, b)
  {
    var ms := Memberships(enrollments);
    var g := GroupOf(ms);
    GroupOfExactly(ms);
    if a in g.students && b in g.students && Shares(g, a, b) {
      var student :| student in g.students[a] && student in g.students[b];
      StudentsOfMember(ms, student, a);
      StudentsOfMember(ms, student, b);
      MembershipsExactly(enrollments, student, a);
      MembershipsExactly(enrollments, student, b);
    }
    if SharedStudent(enrollments, a, b) {
      var student :| Enrolled(enrollments, student, a) && Enrolled(enrollments, student, b);
      MembershipsExactly(enrollments, student, a);
      MembershipsExactly(enrollments, student, b);
      StudentsOfMember(ms, student, a);
      StudentsOfMember(ms, student, b);
      assert (student, a).1 == a && (student, b).1 == b;
      assert a in CoursesOf(ms) && b in CoursesOf(ms);
      assert student in g.students[a] * g.students[b];
    }
  }

  /** A pair is reported exactly when its two codes are in ascending order,
      hence distinct, and some student is enrolled in both; a set holds each
      such pair once. */
  lemma ConflictsExactly(enrollments: Enrollments, a: string, b: string)
    ensures (a, b) in Conflicts(enrollments) <==> StrLt(a, b) && SharedStudent(enrollments, a, b)
  {
    var ms := Memberships(enrollments);
    GroupOfExactly(ms);
    PairsExactly(GroupOf(ms), a, b);
    SharesExactly(enrollments, a, b);
  }

  /** Every reported string names two courses that share a student, in
      ascending order, and every such pair is reported. */
  lemma ConflictLabels(enrollments: Enrollments, pairText: string)
    ensures pairText in Labels(Conflicts(enrollments)) <==>
      exists a, b :: pairText == a + " & " + b && StrLt(a, b) && SharedStudent(enrollments, a, b)
  {
    if pairText in Labels(Conflicts(enrollments)) {
      var p :| p in Conflicts(enrollments) && pairText == p.0 + " & " + p.1;
      ConflictsExactly(enrollments, p.0, p.1);
    }
    if exists a, b :: pairText == a + " & " + b && StrLt(a, b) && SharedStudent(enrollments, a, b) {
      var a, b :| pairText == a + " & " + b && StrLt(a, b) && SharedStudent(enrollments, a, b);
      ConflictsExactly(enrollments, a, b);
      assert (a, b) in Conflicts(enrollments);
    }
  }

  // ---------------------------------------------------------------------------
  // The main block (lines 234-279)
  // ---------------------------------------------------------------------------

  /** A database step: its {"error": ...} result or the data it fetched. */
  datatype Fetch<T> = FetchError(message: string) | Fetched(value: T)

  /** The dict written to the result file. */
  datatype Outcome = Failure(error: string) | Suggestion(text: string)

  const UsageMessage := "Usage: python process_schedule.py <start_date> <end_date> [holidays_comma_separated]"
  const NoDatesMessage := "No available exam dates found in the specified range after excluding weekends and holidays."

  /** Lines 248-279. The course summary and the enrollments come from the
      database, and suggest stands for get_deepseek_suggestion. */
  function Pipeline<S>(startStr: string, endStr: string, holidaysStr: string,
                       summary: Fetch<S>, enrollments: Fetch<Enrollments>,
                       suggest: (seq<int>, S, set<string>) -> Outcome): (out: Outcome)
    ensures out.Suggestion? ==>
      && AvailableDates(startStr, endStr, holidaysStr).Dates?
      && AvailableDates(startStr, endStr, holidaysStr).days != []
      && summary.Fetched? && enrollments.Fetched?
  {
    match AvailableDates(startStr, endStr, holidaysStr)
    case DatesError(message) => Failure(message)
    case Dates(days) =>
      if days == [] then Failure(NoDatesMessage)
      else match summary
        case FetchError(message) => Failure(message)
        case Fetched(courses) =>
          match enrollments
          case FetchError(message) => Failure(message)
          case Fetched(e) => suggest(days, courses, Labels(Conflicts(e)))
  }

  /** Lines 234-244: args are the command-line arguments after the script
      name; the holidays argument is optional. */
  function Run<S>(args: seq<string>, summary: Fetch<S>, enrollments: Fetch<Enrollments>,
                  suggest: (seq<int>, S, set<string>) -> Outcome): (out: Outcome)
    ensures |args| < 2 ==> out == Failure(UsageMessage)
    ensures out.Suggestion? ==> |args| >= 2 && ParseIsoDate(args[0]).Some? && ParseIsoDate(args[1]).Some?
  {
    if |args| < 2 then Failure(UsageMessage)
    else Pipeline(args[0], args[1], if |args| > 2 then args[2] else "", summary, enrollments, suggest)
  }

  /** The first step that fails decides the outcome, and no later step is
      consulted. */
  lemma FirstErrorWins<S>(startStr: string, endStr: string, holidaysStr: string,
                          summary: Fetch<S>, enrollments: Fetch<Enrollments>,
                          suggest: (seq<int>, S, set<string>) -> Outcome)
    ensures var dates := AvailableDates(startStr, endStr, holidaysStr);
      var out := Pipeline(startStr, endStr, holidaysStr, summary, enrollments, suggest);
      && (dates.DatesError? ==> out == Failure(dates.message))
      && (dates == Dates([]) ==> out == Failure(NoDatesMessage))
      && (dates.Dates? && dates.days != [] && summary.FetchError? ==> out == Failure(summary.message))
      && (dates.Dates? && dates.days != [] && summary.Fetched? && enrollments.FetchError? ==>
            out == Failure(enrollments.message))
  {
  }

  /** A start after the end leaves no dates, which the pipeline reports. */
  lemma StartAfterEndNoDates<S>(startStr: string, endStr: string, holidaysStr: string,
                                summary: Fetch<S>, enrollments: Fetch<Enrollments>,
                                suggest: (seq<int>, S, set<string>) -> Outcome)
    requires ParseIsoDate(startStr).Some? && ParseIsoDate(endStr).Some?
    requires ParseIsoDate(startStr).value > ParseIsoDate(endStr).value
    ensures Pipeline(startStr, endStr, holidaysStr, summary, enrollments, suggest) == Failure(NoDatesMessage)
  {
    AvailableDatesExactly(startStr, endStr, holidaysStr);
  }

  /** When every step succeeds, the suggestion step receives open days of
      the range in ascending order and exactly the conflicting pairs. */
  lemma SuggestionInputs<S>(startStr: string, endStr: string, holidaysStr: string,
                            summary: Fetch<S>, enrollments: Fetch<Enrollments>,
                            suggest: (seq<int>, S, set<string>) -> Outcome)
    requires AvailableDates(startStr, endStr, holidaysStr).Dates?
    requires AvailableDates(startStr, endStr, holidaysStr).days != []
    requires summary.Fetched? && enrollments.Fetched?
    ensures var days := AvailableDates(startStr, endStr, holidaysStr).days;
      var start, end := ParseIsoDate(startStr).value, ParseIsoDate(endStr).value;
      && Pipeline(startStr, endStr, holidaysStr, summary, enrollments, suggest)
           == suggest(days, summary.value, Labels(Conflicts(enrollments.value)))
      && start <= end
      && Ascending(days)
      && (forall day :: day in days ==> start <= day <= end && !IsFriday(day) && day !in Holidays(holidaysStr))
      && (forall a, b :: (a, b) in Conflicts(enrollments.value) <==>
            StrLt(a, b) && SharedStudent(enrollments.value, a, b))
  {
    AvailableDatesExactly(startStr, endStr, holidaysStr);
    forall a, b
      ensures (a, b) in Conflicts(enrollments.value) <==> StrLt(a, b) && SharedStudent(enrollments.value, a, b)
    {
      ConflictsExactly(enrollments.value, a, b);
    }
    var days := AvailableDates(startStr, endStr, holidaysStr).days;
    assert days[0] in days;
  }

  /** Leaving out the holidays argument is the same as passing "". */
  lemma RunDefaultsHolidays<S>(startStr: string, endStr: string,
                               summary: Fetch<S>, enrollments: Fetch<Enrollments>,
                               suggest: (seq<int>, S, set<string>) -> Outcome)
    ensures Run([startStr, endStr], summary, enrollments, suggest)
      == Run([startStr, endStr, ""], summary, enrollments, suggest)
    ensures Run([startStr], summary, enrollments, suggest) == Failure(UsageMessage)
  {
  }
}
