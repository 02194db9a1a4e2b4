/** The saved-schedule view of exam_schedule.php (lines 294-329 and 374-387):
    the suggestion is read line by line into a date-keyed list of course
    lists (comma-list grammar, a later line for a date replacing the earlier
    list in place) plus the notes, and every course of a non-empty day becomes
    one calendar event carrying its academic level. */
module MasterSchedule {
  import opened Text
  import opened Wrappers
  import opened ScheduleLines

  /** The entry pattern of line 303, ^\d+\.\s*(\d{4}-\d{2}-\d{2}):\s*(.*)$: the
      colon follows the date at once; the payload is the rest of the line
      after the spaces \s* skips, trimmed as line 305 does. */
  function MasterEntry(line: string): (r: Option<(string, string)>)
    ensures r.Some? ==> NumberedDate(line).Some? && |r.value.0| == 10 && StartsWithDate(r.value.0)
    ensures r.Some? ==> PhpTrim(r.value.1) == r.value.1
  {
    match NumberedDate(line)
    case None => None
    case Some((date, rest)) =>
      if |rest| > 0 && rest[0] == ':' then
        var tail := rest[1..];
        var payload := tail[LeadLen(tail, IsRegexSpace)..];
        TrimByIdempotent(payload, IsPhpSpace);
        Some((date, PhpTrim(payload)))
      else None
  }

  /** Lines 299-328 for one line: trim, skip the empty ones, then entry, note
      or dropped. */
  function MasterKind(raw: string): Kind {
    var line := PhpTrim(raw);
    if PhpEmpty(line) then Blank
    else match MasterEntry(line)
      case Some((date, payload)) => Entry(date, payload)
      case None => if KeptAsNote(line) then Note(line) else Ignored
  }

  /** array_map(f, items). */
  function MapEach(items: seq<string>, f: string -> string): seq<string>
    decreases |items|
  {
    if items == [] then [] else MapEach(items[..|items| - 1], f) + [f(items[|items| - 1])]
  }

  /** array_map holds exactly the images of the items. */
  lemma {:induction false} MapEachMembers(items: seq<string>, f: string -> string)
    ensures forall x :: x in MapEach(items, f) <==> exists i :: 0 <= i < |items| && x == f(items[i])
    decreases |items|
  {
    if items != [] {
      var init := items[..|items| - 1];
      MapEachMembers(init, f);
      forall x ensures x in MapEach(items, f) <==> exists i :: 0 <= i < |items| && x == f(items[i]) {
        if x in MapEach(init, f) {
          var i :| 0 <= i < |init| && x == f(init[i]);
          assert init[i] == items[i];
        }
        if exists i :: 0 <= i < |items| && x == f(items[i]) {
          var i :| 0 <= i < |items| && x == f(items[i]);
          if i < |init| {
            assert init[i] == items[i];
          }
        }
      }
    }
  }

  /** array_filter() with no callback: the items PHP considers truthy, in order. */
  function Truthy(xs: seq<string>): seq<string>
    decreases |xs|
  {
    if xs == [] then []
    else
      var last := xs[|xs| - 1];
      Truthy(xs[..|xs| - 1]) + (if PhpEmpty(last) then [] else [last])
  }

  /** array_filter(array_map('trim', items)): the trimmed items that PHP
      considers truthy, in order. */
  function Filled(items: seq<string>): seq<string> {
    Truthy(MapEach(items, PhpTrim))
  }

  /** The courses an entry records for its date (lines 307-322): none for an
      empty payload, otherwise the non-empty comma-separated items. */
  function DayCourses(payload: string): (courses: seq<string>)
    ensures PhpEmpty(payload) ==> courses == []
    ensures forall c :: c in courses ==> !PhpEmpty(c) && PhpTrim(c) == c
  {
    if PhpEmpty(payload) then []
    else
      FilledTrimmed(Split(payload, ','));
      Filled(Split(payload, ','))
  }

  /** The kept items are non-empty and already trimmed. */
  lemma FilledTrimmed(items: seq<string>)
    ensures forall c :: c in Filled(items) ==> !PhpEmpty(c) && PhpTrim(c) == c
  {
    FilledMembers(items);
    forall c | c in Filled(items)
      ensures !PhpEmpty(c) && PhpTrim(c) == c
    {
      var i :| 0 <= i < |items| && c == PhpTrim(items[i]) && !PhpEmpty(c);
      TrimByIdempotent(items[i], IsPhpSpace);
    }
  }

  /** array_filter keeps exactly the truthy items. */
  lemma {:induction false} TruthyMembers(xs: seq<string>)
    ensures forall x :: x in Truthy(xs) <==> x in xs && !PhpEmpty(x)
    decreases |xs|
  {
    if xs != [] {
      var init := xs[..|xs| - 1];
      TruthyMembers(init);
      assert xs == init + [xs[|xs| - 1]];
    }
  }

  /** The kept items are exactly the trimmed items that are not empty. */
  lemma FilledMembers(items: seq<string>)
    ensures forall x :: x in Filled(items) <==>
      exists i :: 0 <= i < |items| && x == PhpTrim(items[i]) && !PhpEmpty(x)
  {
    TruthyMembers(MapEach(items, PhpTrim));
    MapEachMembers(items, PhpTrim);
  }

  /** One day of $schedule_data: a date and its course list. */
  datatype Day = Day(date: string, courses: seq<string>)

  /** $schedule_data[$date]: the course list stored for a date, if any. */
  function Lookup(days: seq<Day>, date: string): Option<seq<string>> {
    if days == [] then None
    else if days[0].date == date then Some(days[0].courses)
    else Lookup(days[1..], date)
  }

  predicate DistinctDates(days: seq<Day>) {
    forall i, j :: 0 <= i < j < |days| ==> days[i].date != days[j].date
  }

  /** $schedule_data[$date] = $courses: a date already present keeps its
      place and gets the new list; a new date goes at the end. */
  function Put(days: seq<Day>, date: string, courses: seq<string>): seq<Day>
    decreases |days|
  {
    if days == [] then [Day(date, courses)]
    else if days[0].date == date then [Day(date, courses)] + days[1..]
    else [days[0]] + Put(days[1..], date, courses)
  }

  /** After Put the date holds the new list and every other date is as before. */
  lemma {:induction false} PutLookup(days: seq<Day>, date: string, courses: seq<string>, d: string)
    ensures Lookup(Put(days, date, courses), d) == if d == date then Some(courses) else Lookup(days, d)
    decreases |days|
  {
    if days != [] && days[0].date != date {
      PutLookup(days[1..], date, courses, d);
      assert Put(days, date, courses)[1..] == Put(days[1..], date, courses);
    }
  }

  /** Position of the first day carrying date, or |days| when none does. */
  function DateIndex(days: seq<Day>, date: string): (i: nat)
    ensures i <= |days|
    ensures i < |days| ==> days[i].date == date
    ensures forall k :: 0 <= k < i ==> days[k].date != date
    decreases |days|
  {
    if days == [] || days[0].date == date then 0 else 1 + DateIndex(days[1..], date)
  }

  /** Lookup and Put act at DateIndex: Put replaces the day found there, or
      appends when there is none. */
  lemma PutAt(days: seq<Day>, date: string, courses: seq<string>)
    ensures var i := DateIndex(days, date);
      && (Lookup(days, date) == if i < |days| then Some(days[i].courses) else None)
      && (Put(days, date, courses)
          == if i < |days| then days[..i] + [Day(date, courses)] + days[i + 1..]
             else days + [Day(date, courses)])
  {
    LookupAt(days, date);
    PutAtIndex(days, date, courses);
  }

  lemma {:induction false} LookupAt(days: seq<Day>, date: string)
    ensures var i := DateIndex(days, date);
      Lookup(days, date) == if i < |days| then Some(days[i].courses) else None
    decreases |days|
  {
    if days != [] && days[0].date != date {
      LookupAt(days[1..], date);
    }
  }

  lemma {:induction false} PutAtIndex(days: seq<Day>, date: string, courses: seq<string>)
    ensures var i := DateIndex(days, date);
      Put(days, date, courses)
        == if i < |days| then days[..i] + [Day(date, courses)] + days[i + 1..]
           else days + [Day(date, courses)]
    decreases |days|
  {
    var d := Day(date, courses);
    if days == [] {
    } else if days[0].date == date {
      assert days[..0] + [d] + days[1..] == [d] + days[1..];
    } else {
      var tail := days[1..];
      PutAtIndex(tail, date, courses);
      var i := DateIndex(tail, date);
      assert DateIndex(days, date) == i + 1;
      assert Put(days, date, courses) == [days[0]] + Put(tail, date, courses);
      if i < |tail| {
        PutAtIndexStep(days, d, i);
      } else {
        assert [days[0]] + (tail + [d]) == days + [d];
      }
    }
  }

  lemma PutAtIndexStep(days: seq<Day>, d: Day, i: nat)
    requires i + 1 < |days|
    ensures [days[0]] + (days[1..][..i] + [d] + days[1..][i + 1..]) == days[..i + 1] + [d] + days[i + 2..]
  {
    assert days[1..][..i] == days[1..i + 1];
    assert days[1..][i + 1..] == days[i + 2..];
    assert [days[0]] + days[1..i + 1] == days[..i + 1];
  }

  /** Put never duplicates a date, replaces an existing date in place and
      appends a new one. */
  lemma PutPlace(days: seq<Day>, date: string, courses: seq<string>)
    requires DistinctDates(days)
    ensures DistinctDates(Put(days, date, courses))
    ensures Lookup(days, date).Some? ==>
      |Put(days, date, courses)| == |days| &&
      forall i :: 0 <= i < |days| ==> Put(days, date, courses)[i].date == days[i].date
    ensures Lookup(days, date).None? ==> Put(days, date, courses) == days + [Day(date, courses)]
  {
    PutAt(days, date, courses);
    var i := DateIndex(days, date);
    var r := Put(days, date, courses);
    if i < |days| {
      assert |r| == |days|;
      forall k | 0 <= k < |days| ensures r[k].date == days[k].date {
        if k < i {
          assert r[k] == days[k];
        } else if k > i {
          assert r[k] == days[k];
        }
      }
    } else {
      forall k | 0 <= k < |days| ensures r[k] == days[k] && days[k].date != date {
      }
    }
  }

  /** What the loop of lines 298-329 builds: $schedule_data and $parsing_errors. */
  datatype Parsed = Parsed(days: seq<Day>, notes: seq<string>)

  function Step(p: Parsed, raw: string): Parsed {
    match MasterKind(raw)
    case Entry(date, payload) => Parsed(Put(p.days, date, DayCourses(payload)), p.notes)
    case Note(text) => Parsed(p.days, p.notes + [text])
    case _ => p
  }

  function ParseLines(lines: seq<string>): Parsed
    decreases |lines|
  {
    if lines == [] then Parsed([], [])
    else Step(ParseLines(lines[..|lines| - 1]), lines[|lines| - 1])
  }

  /** The course list of the last entry line for a date, if any: the value
      the overwriting assignments of lines 313, 317 and 321 leave behind. */
  function LastEntry(lines: seq<string>, date: string): Option<seq<string>>
    decreases |lines|
  {
    if lines == [] then None
    else match MasterKind(lines[|lines| - 1])
      case Entry(d, payload) =>
        if d == date then Some(DayCourses(payload)) else LastEntry(lines[..|lines| - 1], date)
      case _ => LastEntry(lines[..|lines| - 1], date)
  }

  /** Each date appears once, and holds the course list of its last entry
      line: a later entry for the same date replaces the earlier list. */
  lemma {:induction false} ParseLookup(lines: seq<string>, date: string)
    ensures DistinctDates(ParseLines(lines).days)
    ensures Lookup(ParseLines(lines).days, date) == LastEntry(lines, date)
    decreases |lines|
  {
    if lines != [] {
      var init := lines[..|lines| - 1];
      ParseLookup(init, date);
      match MasterKind(lines[|lines| - 1])
      case Entry(d, payload) =>
        PutPlace(ParseLines(init).days, d, DayCourses(payload));
        PutLookup(ParseLines(init).days, d, DayCourses(payload), date);
      case _ =>
    }
  }

  /** The note a single line contributes. */
  function NoteOf(raw: string): seq<string> {
    match MasterKind(raw)
    case Note(text) => [text]
    case _ => []
  }

  lemma StepNotes(p: Parsed, raw: string)
    ensures Step(p, raw).notes == p.notes + NoteOf(raw)
  {
  }

  lemma ParseLinesSnoc(lines: seq<string>, x: string)
    ensures ParseLines(lines + [x]) == Step(ParseLines(lines), x)
  {
    assert (lines + [x])[..|lines|] == lines;
  }

  /** Notes come out in input order: the notes of two consecutive runs of
      lines are those of the first run followed by those of the second. */
  lemma NotesAppend(a: seq<string>, b: seq<string>)
    ensures ParseLines(a + b).notes == ParseLines(a).notes + ParseLines(b).notes
  {
    NotesConcatMap(a + b);
    NotesConcatMap(a);
    NotesConcatMap(b);
    ConcatMapAppend(a, b, NoteOf);
  }

  /** What f gives for each line, concatenated in line order. */
  function ConcatMap(lines: seq<string>, f: string -> seq<string>): seq<string>
    decreases |lines|
  {
    if lines == [] then [] else ConcatMap(lines[..|lines| - 1], f) + f(lines[|lines| - 1])
  }

  lemma {:induction false} ConcatMapAppend(a: seq<string>, b: seq<string>, f: string -> seq<string>)
    ensures ConcatMap(a + b, f) == ConcatMap(a, f) + ConcatMap(b, f)
    decreases |b|
  {
    if b == [] {
      assert a + b == a;
    } else {
      var init, x := b[..|b| - 1], b[|b| - 1];
      ConcatMapAppend(a, init, f);
      assert (a + b)[..|a + b| - 1] == a + init;
      assert b[..|b| - 1] == init;
      var ga, gi, fx := ConcatMap(a, f), ConcatMap(init, f), f(x);
      assert ConcatMap(a + b, f) == (ga + gi) + fx;
      assert ConcatMap(b, f) == gi + fx;
      assert (ga + gi) + fx == ga + (gi + fx);
    }
  }

  /** The notes of a run of lines are the notes of its lines in order. */
  lemma {:induction false} NotesConcatMap(lines: seq<string>)
    ensures ParseLines(lines).notes == ConcatMap(lines, NoteOf)
    decreases |lines|
  {
    if lines != [] {
      var init := lines[..|lines| - 1];
      NotesConcatMap(init);
      StepNotes(ParseLines(init), lines[|lines| - 1]);
    }
  }

  lemma NotesSnoc(lines: seq<string>, x: string)
    ensures ParseLines(lines + [x]).notes == ParseLines(lines).notes + NoteOf(x)
  {
    ParseLinesSnoc(lines, x);
    StepNotes(ParseLines(lines), x);
  }

  /** One line alone: an entry gives no note, a note line gives itself
      trimmed, and blank or dropped lines give nothing. */
  lemma NoteOfLine(line: string)
    ensures ParseLines([line]).notes == if MasterKind(line).Note? then [PhpTrim(line)] else []
  {
    assert [line][..0] == [];
    StepNotes(Parsed([], []), line);
  }

  /** Lines 294-329 as the page runs them. */
  method ParseSuggestion(suggestion: string) returns (days: seq<Day>, notes: seq<string>)
    ensures Parsed(days, notes) == ParseLines(SuggestionLines(suggestion))
  {
    var lines := SuggestionLines(suggestion);
    days, notes := [], [];
    var i := 0;
    while i < |lines|
      invariant 0 <= i <= |lines|
      invariant Parsed(days, notes) == ParseLines(lines[..i])
    {
      ParsePrefix(lines, i);
      days, notes := ParseLine(lines[i], days, notes);
      i := i + 1;
    }
    assert lines[..|lines|] == lines;
  }

  lemma ParsePrefix(lines: seq<string>, i: nat)
    requires i < |lines|
    ensures ParseLines(lines[..i + 1]) == Step(ParseLines(lines[..i]), lines[i])
  {
    assert lines[..i + 1] == lines[..i] + [lines[i]];
    ParseLinesSnoc(lines[..i], lines[i]);
  }

  /** The body of the loop of lines 298-329 for one line. */
  method ParseLine(raw: string, days: seq<Day>, notes: seq<string>)
      returns (days': seq<Day>, notes': seq<string>)
    ensures Parsed(days', notes') == Step(Parsed(days, notes), raw)
  {
    days', notes' := days, notes;
    var line := PhpTrim(raw);
    if PhpEmpty(line) {
      return;
    }
    match MasterEntry(line)
    case Some((date, coursesText)) =>
      if !PhpEmpty(coursesText) {
        var onDay := Filled(Split(coursesText, ','));
        if onDay != [] {
          days' := Put(days, date, onDay);
        } else {
          days' := Put(days, date, []);
        }
      } else {
        days' := Put(days, date, []);
      }
    case None =>
      if KeptAsNote(line) {
        notes' := notes + [line];
      }
  }

  /** One FullCalendar event of line 379. */
  datatype Event = Event(title: string, start: string, level: string)

  /** Line 378: the looked-up academic level, or "Unknown" when the code has
      no row or its level is NULL (isset is false for both). */
  function LevelOf(levels: map<string, Option<string>>, code: string): (level: string)
    ensures code in levels && levels[code].Some? ==> level == levels[code].value
    ensures level == "Unknown" || (code in levels && levels[code] == Some(level))
  {
    if code in levels && levels[code].Some? then levels[code].value else "Unknown"
  }

  function CourseEvent(date: string, code: string, levels: map<string, Option<string>>): Event {
    Event(code, date, LevelOf(levels, code))
  }

  /** The events of one day, one per course in its order. */
  function DayEvents(day: Day, levels: map<string, Option<string>>): seq<Event> {
    seq(|day.courses|, j requires 0 <= j < |day.courses| => CourseEvent(day.date, day.courses[j], levels))
  }

  /** $calendar_events after the loop of lines 375-387. */
  function EventsOf(days: seq<Day>, levels: map<string, Option<string>>): seq<Event>
    decreases |days|
  {
    if days == [] then []
    else
      var last := days[|days| - 1];
      EventsOf(days[..|days| - 1], levels) + (if last.courses != [] then DayEvents(last, levels) else [])
  }

  /** The number of courses over all days. */
  function CourseCount(days: seq<Day>): nat
    decreases |days|
  {
    if days == [] then 0 else CourseCount(days[..|days| - 1]) + |days[|days| - 1].courses|
  }

  /** Some day lists the course the event is for, with its date and level. */
  predicate EventFor(days: seq<Day>, levels: map<string, Option<string>>, e: Event) {
    exists k, j :: 0 <= k < |days| && 0 <= j < |days[k].courses| &&
      e == CourseEvent(days[k].date, days[k].courses[j], levels)
  }

  lemma EventsSnoc(days: seq<Day>, levels: map<string, Option<string>>)
    requires days != []
    ensures EventsOf(days, levels) == EventsOf(days[..|days| - 1], levels) + DayEvents(days[|days| - 1], levels)
  {
  }

  lemma EventForSnoc(days: seq<Day>, levels: map<string, Option<string>>, e: Event)
    requires days != []
    ensures EventFor(days, levels, e) <==>
      EventFor(days[..|days| - 1], levels, e) || e in DayEvents(days[|days| - 1], levels)
  {
    var init, last := days[..|days| - 1], days[|days| - 1];
    if EventFor(days, levels, e) {
      var k, j :| 0 <= k < |days| && 0 <= j < |days[k].courses| &&
        e == CourseEvent(days[k].date, days[k].courses[j], levels);
      if k < |init| {
        assert init[k] == days[k];
      } else {
        assert DayEvents(last, levels)[j] == e;
      }
    }
    if EventFor(init, levels, e) {
      var k, j :| 0 <= k < |init| && 0 <= j < |init[k].courses| &&
        e == CourseEvent(init[k].date, init[k].courses[j], levels);
      assert days[k] == init[k];
    }
    if e in DayEvents(last, levels) {
      var j :| 0 <= j < |last.courses| && DayEvents(last, levels)[j] == e;
      assert days[|days| - 1] == last;
    }
  }

  /** There is one event per listed course, none for an empty day. */
  lemma {:induction false} EventCount(days: seq<Day>, levels: map<string, Option<string>>)
    ensures |EventsOf(days, levels)| == CourseCount(days)
    decreases |days|
  {
    if days != [] {
      EventCount(days[..|days| - 1], levels);
      EventsSnoc(days, levels);
    }
  }

  /** An event exists exactly for each course of each day, titled with the
      course, dated with the day and carrying the course's level or
      "Unknown". */
  lemma {:induction false} EventsExactly(days: seq<Day>, levels: map<string, Option<string>>)
    ensures forall e :: e in EventsOf(days, levels) <==> EventFor(days, levels, e)
    decreases |days|
  {
    if days != [] {
      EventsExactly(days[..|days| - 1], levels);
      EventsSnoc(days, levels);
      forall e ensures e in EventsOf(days, levels) <==> EventFor(days, levels, e) {
        EventForSnoc(days, levels, e);
      }
    }
  }

  /** Lines 374-387 as the page runs them. */
  method BuildEvents(days: seq<Day>, levels: map<string, Option<string>>) returns (events: seq<Event>)
    ensures events == EventsOf(days, levels)
  {
    events := [];
    var k := 0;
    while k < |days|
      invariant 0 <= k <= |days|
      invariant events == EventsOf(days[..k], levels)
    {
      var day := days[k];
      assert days[..k + 1][..k] == days[..k];
      if day.courses != [] {
        var j := 0;
        while j < |day.courses|
          invariant 0 <= j <= |day.courses|
          invariant events == EventsOf(days[..k], levels) + DayEvents(day, levels)[..j]
        {
          events := events + [CourseEvent(day.date, day.courses[j], levels)];
          assert DayEvents(day, levels)[..j + 1] == DayEvents(day, levels)[..j] + [DayEvents(day, levels)[j]];
          j := j + 1;
        }
        assert DayEvents(day, levels)[..j] == DayEvents(day, levels);
      }
      k := k + 1;
    }
    assert days[..|days|] == days;
  }
}
