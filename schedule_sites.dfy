/** Where the two saved-schedule pages read the same line differently:
    exam_schedule.php:303 wants the colon right after the date and accepts
    an empty payload, exam_schedule_new.php:279 allows spaces before the
    colon and wants a payload; the first splits the payload into a course
    list, the second keeps it whole. */
module ScheduleSites {
  import opened Text
  import opened Wrappers
  import opened ScheduleLines
  import M = MasterSchedule
  import T = TypedSchedule

  /** An entry line of exam_schedule.php with a non-empty payload is an entry
      of exam_schedule_new.php with the same date and payload; only the first
      then cuts that payload at its commas. */
  lemma SameEntryWhenPayload(line: string, date: string, payload: string)
    requires M.MasterEntry(line) == Some((date, payload)) && payload != ""
    ensures T.TypedEntry(line) == Some((date, payload))
  {
    var rest := NumberedDate(line).value.1;
    assert |rest| > 0 && rest[0] == ':';
    assert LeadLen(rest, IsRegexSpace) == 0;
    assert rest[0..] == rest;
    var t := rest[1..];
    var w := LeadLen(t, IsRegexSpace);
    assert payload == PhpTrim(t[w..]);
  }

  /** A date followed by a colon and nothing else: exam_schedule.php records
      the date with no courses, exam_schedule_new.php keeps the line as a
      note. */
  lemma EmptyPayloadDiffers(line: string, date: string)
    requires PhpTrim(line) == line
    requires NumberedDate(line) == Some((date, ":"))
    ensures M.MasterKind(line) == Entry(date, "")
    ensures M.DayCourses("") == []
    ensures T.TypedKind(line) == Note(line)
  {
    EmptyPayloadMaster(line, date);
    EmptyPayloadTyped(line, date);
  }

  lemma EmptyPayloadMaster(line: string, date: string)
    requires PhpTrim(line) == line
    requires NumberedDate(line) == Some((date, ":"))
    ensures M.MasterKind(line) == Entry(date, "")
  {
    EmptyPayloadMasterEntry(line, date);
    KindNotBlank(line);
  }

  lemma EmptyPayloadMasterEntry(line: string, date: string)
    requires NumberedDate(line) == Some((date, ":"))
    ensures M.MasterEntry(line) == Some((date, ""))
  {
    TrimByShape([], IsPhpSpace);
    assert ":"[1..] == [];
  }

  lemma EmptyPayloadTyped(line: string, date: string)
    requires PhpTrim(line) == line
    requires NumberedDate(line) == Some((date, ":"))
    ensures T.TypedKind(line) == Note(line)
  {
    EmptyPayloadNoTypedEntry(line, date);
    NumberedKeptAsNote(line);
    KindNotBlank(line);
  }

  lemma EmptyPayloadNoTypedEntry(line: string, date: string)
    requires NumberedDate(line) == Some((date, ":"))
    ensures T.TypedEntry(line) == None
  {
    assert ":"[1..] == [];
  }

  /** A trimmed line with a numbered date is never blank: each page takes it
      as the entry its pattern reads, or else as a note when the note filter
      keeps it. */
  lemma KindNotBlank(line: string)
    requires PhpTrim(line) == line && NumberedDate(line).Some?
    ensures M.MasterEntry(line).Some? ==> M.MasterKind(line) == Entry(M.MasterEntry(line).value.0, M.MasterEntry(line).value.1)
    ensures T.TypedEntry(line) == None && KeptAsNote(line) ==> T.TypedKind(line) == Note(line)
    ensures M.MasterEntry(line) == None && KeptAsNote(line) ==> M.MasterKind(line) == Note(line)
  {
    assert line != "" && line != "0" by {
      assert line[LeadLen(line, IsDigit)] == '.';
    }
  }

  /** A space between the date and the colon: exam_schedule_new.php reads an
      entry, exam_schedule.php keeps the whole line as a note. */
  lemma SpaceBeforeColonDiffers(line: string, date: string, payload: string,
                                rest: string, before: string, after: string, body: string)
    requires PhpTrim(line) == line
    requires T.IsTypedEntry(line, date, payload, rest, before, after, body)
    requires before != []
    ensures T.TypedKind(line) == Entry(date, payload)
    ensures M.MasterKind(line) == Note(line)
  {
    T.TypedEntryOf(line, date, payload, rest, before, after, body);
    SpaceBeforeColonMaster(line, date, payload, rest, before, after, body);
  }

  lemma SpaceBeforeColonMaster(line: string, date: string, payload: string,
                               rest: string, before: string, after: string, body: string)
    requires PhpTrim(line) == line
    requires T.IsTypedEntry(line, date, payload, rest, before, after, body)
    requires before != []
    ensures M.MasterKind(line) == Note(line)
  {
    SpaceBeforeColonNoMasterEntry(line, date, payload, rest, before, after, body);
    NumberedKeptAsNote(line);
    KindNotBlank(line);
  }

  lemma SpaceBeforeColonNoMasterEntry(line: string, date: string, payload: string,
                                      rest: string, before: string, after: string, body: string)
    requires T.IsTypedEntry(line, date, payload, rest, before, after, body)
    requires before != []
    ensures NumberedDate(line).Some?
    ensures M.MasterEntry(line) == None
  {
    T.TypedEntryOf(line, date, payload, rest, before, after, body);
    assert rest[0] == before[0];
  }

  /** "1. 2024-08-20:" is a date with no courses on one page and a note on
      the other. */
  lemma EmptyPayloadExample()
    ensures M.MasterKind("1. 2024-08-20:") == Entry("2024-08-20", "")
    ensures T.TypedKind("1. 2024-08-20:") == Note("1. 2024-08-20:")
  {
    var line := "1. 2024-08-20:";
    TrimByNoop(line, IsPhpSpace);
    assert line == "1" + "." + " " + "2024-08-20" + ":";
    assert IsNumberedDate(line, "1", " ", "2024-08-20", ":");
    NumberedDateOf(line, "1", " ", "2024-08-20", ":");
    EmptyPayloadDiffers(line, "2024-08-20");
  }

  /** "1. 2024-08-20 : CS101" is an entry on the newer page only. */
  lemma SpaceBeforeColonExample()
    ensures T.TypedKind("1. 2024-08-20 : CS101") == Entry("2024-08-20", "CS101")
    ensures M.MasterKind("1. 2024-08-20 : CS101") == Note("1. 2024-08-20 : CS101")
  {
    var line := "1. 2024-08-20 : CS101";
    ExampleShape();
    TrimByNoop(line, IsPhpSpace);
    TrimByNoop("CS101", IsPhpSpace);
    NumberedDateOf(line, "1", " ", "2024-08-20", " : CS101");
    SpaceBeforeColonDiffers(line, "2024-08-20", "CS101", " : CS101", " ", " ", "CS101");
  }

  lemma ExampleShape()
    ensures IsNumberedDate("1. 2024-08-20 : CS101", "1", " ", "2024-08-20", " : CS101")
    ensures T.IsColonPayload(" : CS101", " ", " ", "CS101")
  {
    assert "1. 2024-08-20 : CS101" == "1" + "." + " " + "2024-08-20" + " : CS101";
    assert " : CS101" == " " + ":" + " " + "CS101";
  }

  /** "CS101, CS102" is two courses for exam_schedule.php. */
  lemma CommaListExample()
    ensures M.DayCourses("CS101, CS102") == ["CS101", "CS102"]
  {
    CommaSplitExample();
    CommaFilledExample();
  }

  lemma CommaFilledExample()
    ensures M.Filled(["CS101", " CS102"]) == ["CS101", "CS102"]
  {
    CommaMapExample(PhpTrim);
    CommaTrimExample();
    CommaTruthyExample();
  }

  lemma CommaMapExample(f: string -> string)
    ensures M.MapEach(["CS101", " CS102"], f) == [f("CS101"), f(" CS102")]
  {
    var parts := ["CS101", " CS102"];
    assert parts[..1] == ["CS101"];
    assert parts[..1][..0] == [];
  }

  lemma CommaTruthyExample()
    ensures M.Truthy(["CS101", "CS102"]) == ["CS101", "CS102"]
  {
    var kept := ["CS101", "CS102"];
    assert kept[..1] == ["CS101"];
    assert kept[..1][..0] == [];
  }

  lemma CommaSplitExample()
    ensures Split("CS101, CS102", ',') == ["CS101", " CS102"]
  {
    var parts := ["CS101", " CS102"];
    assert Join(parts, ',') == "CS101, CS102";
    SplitJoin(parts, ',');
  }

  lemma CommaTrimExample()
    ensures PhpTrim("CS101") == "CS101"
    ensures PhpTrim(" CS102") == "CS102"
  {
    TrimByNoop("CS101", IsPhpSpace);
    assert LeadLen(" CS102", IsPhpSpace) == 1;
    assert TrailLen(" CS102", IsPhpSpace) == 0;
    assert " CS102"[1..6] == "CS102";
  }
}
