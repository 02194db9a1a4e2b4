/** The saved-schedule view of exam_schedule_new.php (lines 272-287 and
    303-312): every entry line becomes one (date, payload) record, kept in
    order and with duplicates, the other lines go through the shared note
    filter, and each record becomes one calendar event typed as a study day
    or a course. */
module TypedSchedule {
  import opened Text
  import opened Wrappers
  import opened ScheduleLines

  /** The entry pattern of line 279, ^\d+\.\s*(\d{4}-\d{2}-\d{2})\s*:\s*(\S+.*):
      spaces may stand on both sides of the colon and the payload must start
      with a non-space; the payload is trimmed as line 280 does. */
  function TypedEntry(line: string): (e: Option<(string, string)>)
    ensures e.Some? ==> NumberedDate(line).Some? && |e.value.0| == 10 && StartsWithDate(e.value.0)
    ensures e.Some? ==> PhpTrim(e.value.1) == e.value.1
  {
    match NumberedDate(line)
    case None => None
    case Some((date, rest)) =>
      var r := rest[LeadLen(rest, IsRegexSpace)..];
      if |r| > 0 && r[0] == ':' then
        var t := r[1..];
        var w := LeadLen(t, IsRegexSpace);
        if w < |t| then
          TrimByIdempotent(t[w..], IsPhpSpace);
          Some((date, PhpTrim(t[w..])))
        else None
      else None
  }

  /** The text after the date in an entry: spaces, a colon, spaces, then a
      body starting with a non-space. */
  predicate IsColonPayload(rest: string, before: string, after: string, body: string) {
    && rest == before + ":" + after + body
    && (forall k :: 0 <= k < |before| ==> IsRegexSpace(before[k]))
    && (forall k :: 0 <= k < |after| ==> IsRegexSpace(after[k]))
    && |body| > 0 && !IsRegexSpace(body[0])
  }

  /** A line of the entry form: a numbered date, then the colon form, and
      payload is the trimmed body. */
  predicate IsTypedEntry(line: string, date: string, payload: string,
                         rest: string, before: string, after: string, body: string) {
    && NumberedDate(line) == Some((date, rest))
    && IsColonPayload(rest, before, after, body)
    && payload == PhpTrim(body)
  }

  /** TypedEntry accepts exactly the lines whose numbered date is followed by
      the colon form, and the payload it records is the trimmed body. */
  lemma TypedEntryExactly(line: string, date: string, payload: string)
    ensures TypedEntry(line) == Some((date, payload)) <==>
      exists rest, before, after, body ::
        IsTypedEntry(line, date, payload, rest, before, after, body)
  {
    if TypedEntry(line) == Some((date, payload)) {
      var rest, before, after, body := TypedEntryShape(line, date, payload);
      Exhibit(line, date, payload, rest, before, after, body);
    }
    if exists rest, before, after, body ::
        IsTypedEntry(line, date, payload, rest, before, after, body)
    {
      var rest, before, after, body :| IsTypedEntry(line, date, payload, rest, before, after, body);
      TypedEntryOf(line, date, payload, rest, before, after, body);
    }
  }

  lemma Exhibit(line: string, date: string, payload: string,
                rest: string, before: string, after: string, body: string)
    requires IsTypedEntry(line, date, payload, rest, before, after, body)
    ensures exists rest, before, after, body ::
        IsTypedEntry(line, date, payload, rest, before, after, body)
  {
  }

  lemma TypedEntryShape(line: string, date: string, payload: string)
      returns (rest: string, before: string, after: string, body: string)
    requires TypedEntry(line) == Some((date, payload))
    ensures IsTypedEntry(line, date, payload, rest, before, after, body)
  {
    rest := NumberedDate(line).value.1;
    var v := LeadLen(rest, IsRegexSpace);
    var t := rest[v + 1..];
    var w := LeadLen(t, IsRegexSpace);
    assert NumberedDate(line) == Some((date, rest));
    assert payload == PhpTrim(t[w..]);
    ColonParts(rest, v, w);
    before, after, body := rest[..v], t[..w], t[w..];
  }

  /** Cutting rest at the leading spaces, the colon and the spaces after it
      gives the colon form. */
  lemma ColonParts(rest: string, v: nat, w: nat)
    requires v == LeadLen(rest, IsRegexSpace) && v < |rest| && rest[v] == ':'
    requires w == LeadLen(rest[v + 1..], IsRegexSpace) && w < |rest[v + 1..]|
    ensures IsColonPayload(rest, rest[..v], rest[v + 1..][..w], rest[v + 1..][w..])
  {
    ColonShape(rest, v, w);
  }

  lemma TypedEntryOf(line: string, date: string, payload: string,
                     rest: string, before: string, after: string, body: string)
    requires NumberedDate(line) == Some((date, rest))
    requires IsColonPayload(rest, before, after, body)
    requires payload == PhpTrim(body)
    ensures TypedEntry(line) == Some((date, payload))
  {
    ColonBodyOf(rest, before, after, body);
  }

  /** What TypedEntry reads after the date in the colon form: the colon, then
      the body once the spaces after it are skipped. */
  lemma ColonBodyOf(rest: string, before: string, after: string, body: string)
    requires IsColonPayload(rest, before, after, body)
    ensures var r := rest[LeadLen(rest, IsRegexSpace)..];
      && |r| > 0 && r[0] == ':'
      && LeadLen(r[1..], IsRegexSpace) < |r[1..]|
      && r[1..][LeadLen(r[1..], IsRegexSpace)..] == body
  {
    ColonOf(rest, before, after, body);
    var r := rest[LeadLen(rest, IsRegexSpace)..];
    assert r == ":" + after + body;
    assert r[1..] == after + body;
  }

  lemma ColonShape(rest: string, v: nat, w: nat)
    requires v < |rest| && rest[v] == ':'
    requires w <= |rest[v + 1..]|
    ensures rest == rest[..v] + ":" + rest[v + 1..][..w] + rest[v + 1..][w..]
  {
    assert rest == rest[..v] + [rest[v]] + rest[v + 1..];
    assert rest[v + 1..] == rest[v + 1..][..w] + rest[v + 1..][w..];
  }

  lemma ColonOf(rest: string, before: string, after: string, body: string)
    requires IsColonPayload(rest, before, after, body)
    ensures LeadLen(rest, IsRegexSpace) == |before|
    ensures rest[|before|..] == ":" + after + body
    ensures LeadLen(after + body, IsRegexSpace) == |after|
    ensures (after + body)[|after|..] == body
  {
    assert rest == before + (":" + after + body);
    assert rest[|before|] == ':';
    LeadLenExact(rest, IsRegexSpace, |before|);
    assert (after + body)[|after|] == body[0];
    LeadLenExact(after + body, IsRegexSpace, |after|);
  }

  /** Lines 275-285 for one line: trim, skip the empty ones, then entry, note
      or dropped. */
  function TypedKind(raw: string): Kind {
    var line := PhpTrim(raw);
    if PhpEmpty(line) then Blank
    else match TypedEntry(line)
      case Some((date, payload)) => Entry(date, payload)
      case None => if KeptAsNote(line) then Note(line) else Ignored
  }

  /** One record of $schedule_data: a date and its whole payload. */
  datatype Item = Item(date: string, course: string)

  /** What the loop of lines 274-287 builds: $schedule_data and $parsing_errors. */
  datatype Parsed = Parsed(items: seq<Item>, notes: seq<string>)

  /** The classification of every line, in order. */
  function Kinds(lines: seq<string>): (kinds: seq<Kind>)
    ensures |kinds| == |lines|
    ensures forall i :: 0 <= i < |lines| ==> kinds[i] == TypedKind(lines[i])
  {
    seq(|lines|, i requires 0 <= i < |lines| => TypedKind(lines[i]))
  }

  lemma KindsAppend(a: seq<string>, b: seq<string>)
    ensures Kinds(a + b) == Kinds(a) + Kinds(b)
  {
  }

  /** What one classified line adds: an entry appends its record, a note
      appends its text, anything else changes nothing. */
  function Step(p: Parsed, kind: Kind): Parsed {
    match kind
    case Entry(date, payload) => Parsed(p.items + [Item(date, payload)], p.notes)
    case Note(text) => Parsed(p.items, p.notes + [text])
    case _ => p
  }

  function Gather(kinds: seq<Kind>): Parsed
    decreases |kinds|
  {
    if kinds == [] then Parsed([], [])
    else Step(Gather(kinds[..|kinds| - 1]), kinds[|kinds| - 1])
  }

  function ParseLines(lines: seq<string>): Parsed {
    Gather(Kinds(lines))
  }

  lemma {:induction false} GatherAppend(a: seq<Kind>, b: seq<Kind>)
    ensures Gather(a + b).items == Gather(a).items + Gather(b).items
    ensures Gather(a + b).notes == Gather(a).notes + Gather(b).notes
    decreases |b|
  {
    if b == [] {
      assert a + b == a;
    } else {
      var init := b[..|b| - 1];
      GatherAppend(a, init);
      assert (a + b)[..|a + b| - 1] == a + init;
      assert (a + b)[|a + b| - 1] == b[|b| - 1];
    }
  }

  /** Records and notes keep input order: parsing two runs of lines one
      after the other gives the records and the notes of the first run
      followed by those of the second. */
  lemma ParseAppend(a: seq<string>, b: seq<string>)
    ensures ParseLines(a + b).items == ParseLines(a).items + ParseLines(b).items
    ensures ParseLines(a + b).notes == ParseLines(a).notes + ParseLines(b).notes
  {
    KindsAppend(a, b);
    GatherAppend(Kinds(a), Kinds(b));
  }

  /** One line alone: an entry line gives one record holding its date and
      trimmed payload and no note; a note line gives itself trimmed. */
  lemma ParseOneLine(line: string)
    ensures ParseLines([line]).items ==
      if TypedKind(line).Entry? then [Item(TypedKind(line).date, TypedKind(line).payload)] else []
    ensures ParseLines([line]).notes == if TypedKind(line).Note? then [PhpTrim(line)] else []
  {
    var k := Kinds([line]);
    assert k == [TypedKind(line)];
    assert k[..0] == [];
    assert Gather(k) == Step(Parsed([], []), TypedKind(line));
  }

  lemma GatherSnoc(kinds: seq<Kind>, i: nat)
    requires i < |kinds|
    ensures Gather(kinds[..i + 1]) == Step(Gather(kinds[..i]), kinds[i])
  {
    assert kinds[..i + 1][..i] == kinds[..i];
  }

  /** The number of entries among the classified lines. */
  function EntryCount(kinds: seq<Kind>): nat
    decreases |kinds|
  {
    if kinds == [] then 0
    else EntryCount(kinds[..|kinds| - 1]) + (if kinds[|kinds| - 1].Entry? then 1 else 0)
  }

  /** One record per entry line: nothing is merged, even for a repeated date. */
  lemma {:induction false} ItemCount(kinds: seq<Kind>)
    ensures |Gather(kinds).items| == EntryCount(kinds)
    decreases |kinds|
  {
    if kinds != [] {
      ItemCount(kinds[..|kinds| - 1]);
    }
  }

  /** A record exists exactly for each entry, with its date and payload. */
  lemma {:induction false} GatherItems(kinds: seq<Kind>)
    ensures forall it :: it in Gather(kinds).items <==> Entry(it.date, it.course) in kinds
    decreases |kinds|
  {
    if kinds != [] {
      var init := kinds[..|kinds| - 1];
      GatherItems(init);
      assert kinds == init + [kinds[|kinds| - 1]];
    }
  }

  /** A record exists exactly for each entry line, with that line's date and
      payload. */
  lemma ItemsExactly(lines: seq<string>)
    ensures forall it :: it in ParseLines(lines).items <==>
      exists i :: 0 <= i < |lines| && TypedKind(lines[i]) == Entry(it.date, it.course)
  {
    var kinds := Kinds(lines);
    GatherItems(kinds);
    forall it: Item ensures Entry(it.date, it.course) in kinds <==>
      exists i :: 0 <= i < |lines| && TypedKind(lines[i]) == Entry(it.date, it.course)
    {
      if Entry(it.date, it.course) in kinds {
        var i :| 0 <= i < |kinds| && kinds[i] == Entry(it.date, it.course);
        assert TypedKind(lines[i]) == Entry(it.date, it.course);
      }
    }
  }

  /** Lines 272-287 as the page runs them. */
  method ParseSuggestion(suggestion: string) returns (items: seq<Item>, notes: seq<string>)
    ensures Parsed(items, notes) == ParseLines(SuggestionLines(suggestion))
  {
    var lines := SuggestionLines(suggestion);
    items, notes := [], [];
    var i := 0;
    ParsePrefix(lines, 0);
    while i < |lines|
      invariant 0 <= i <= |lines|
      invariant Parsed(items, notes) == ParseLines(lines[..i])
    {
      ParsePrefix(lines, i);
      items, notes := ParseLine(lines[i], items, notes);
      i := i + 1;
    }
    assert lines[..i] == lines;
  }

  /** Parsing a prefix of the lines one line further is one more Step. */
  lemma ParsePrefix(lines: seq<string>, i: nat)
    requires i <= |lines|
    ensures i == 0 ==> ParseLines(lines[..i]) == Parsed([], [])
    ensures i < |lines| ==> ParseLines(lines[..i + 1]) == Step(ParseLines(lines[..i]), TypedKind(lines[i]))
  {
    if i < |lines| {
      var kinds := Kinds(lines[..i + 1]);
      assert kinds[..i] == Kinds(lines[..i]);
      GatherSnoc(kinds, i);
      assert kinds[..i + 1] == kinds;
    }
  }

  /** The body of the loop of lines 274-287 for one line. */
  method ParseLine(raw: string, items: seq<Item>, notes: seq<string>)
      returns (items': seq<Item>, notes': seq<string>)
    ensures Parsed(items', notes') == Step(Parsed(items, notes), TypedKind(raw))
  {
    items', notes' := items, notes;
    var line := PhpTrim(raw);
    if PhpEmpty(line) {
      return;
    }
    match TypedEntry(line)
    case Some((date, course)) =>
      items' := items + [Item(date, course)];
    case None =>
      if KeptAsNote(line) {
        notes' := notes + [line];
      }
  }

  /** The "type" of lines 306-310. */
  datatype EventType = StudyDay | CourseExam

  /** One FullCalendar event of line 304. */
  datatype Event = Event(title: string, start: string, kind: EventType)

  /** The closure of lines 303-311. */
  function ToEvent(item: Item): (e: Event)
    ensures e.title == item.course && e.start == item.date
    ensures e.kind == StudyDay <==> EqualsIgnoreCase(PhpTrim(item.course), "Study Day")
  {
    Event(item.course, item.date,
      if EqualsIgnoreCase(PhpTrim(item.course), "Study Day") then StudyDay else CourseExam)
  }

  /** array_map over $schedule_data: one event per record, in order. */
  function Events(items: seq<Item>): (events: seq<Event>)
    ensures |events| == |items|
    ensures forall k :: 0 <= k < |items| ==> events[k] == ToEvent(items[k])
  {
    seq(|items|, k requires 0 <= k < |items| => ToEvent(items[k]))
  }

  /** For the parsed suggestion there is one event per entry line, titled
      with its payload and dated with its date, and since the payload is
      already trimmed an event is a study day exactly when its title is
      "Study Day" up to ASCII case. */
  lemma EventsOfParsed(lines: seq<string>)
    ensures var items := ParseLines(lines).items;
      && |Events(items)| == |items| == EntryCount(Kinds(lines))
      && forall k :: 0 <= k < |items| ==>
        && Events(items)[k].title == items[k].course
        && Events(items)[k].start == items[k].date
        && (Events(items)[k].kind == StudyDay <==> EqualsIgnoreCase(items[k].course, "Study Day"))
  {
    var items := ParseLines(lines).items;
    ItemCount(Kinds(lines));
    ItemsExactly(lines);
    forall k | 0 <= k < |items| ensures PhpTrim(items[k].course) == items[k].course {
      assert items[k] in items;
      var i :| 0 <= i < |lines| && TypedKind(lines[i]) == Entry(items[k].date, items[k].course);
      EntryTrimmed(lines[i]);
    }
  }

  /** The payload of an entry line is its own trim. */
  lemma EntryTrimmed(raw: string)
    requires TypedKind(raw).Entry?
    ensures PhpTrim(TypedKind(raw).payload) == TypedKind(raw).payload
  {
    var line := PhpTrim(raw);
    var rest := NumberedDate(line).value.1;
    var t := rest[LeadLen(rest, IsRegexSpace)..][1..];
    TrimByIdempotent(t[LeadLen(t, IsRegexSpace)..], IsPhpSpace);
  }

  /** "Study Day" in any ASCII case is a study day; a course code is not. */
  lemma StudyDayExample(date: string)
    ensures ToEvent(Item(date, "STUDY DAY")).kind == StudyDay
    ensures ToEvent(Item(date, "study day")).kind == StudyDay
    ensures ToEvent(Item(date, "CS101")).kind == CourseExam
  {
    StudyDayUpper(date);
    StudyDayLower(date);
    CourseCodeNotStudyDay(date);
  }

  lemma StudyDayUpper(date: string)
    ensures ToEvent(Item(date, "STUDY DAY")).kind == StudyDay
  {
    TrimByNoop("STUDY DAY", IsPhpSpace);
    assert EqualsIgnoreCase("STUDY DAY", "Study Day");
  }

  lemma StudyDayLower(date: string)
    ensures ToEvent(Item(date, "study day")).kind == StudyDay
  {
    TrimByNoop("study day", IsPhpSpace);
    assert EqualsIgnoreCase("study day", "Study Day");
  }

  lemma CourseCodeNotStudyDay(date: string)
    ensures ToEvent(Item(date, "CS101")).kind == CourseExam
  {
    TrimByNoop("CS101", IsPhpSpace);
    assert !EqualsIgnoreCase("CS101", "Study Day");
  }
}
