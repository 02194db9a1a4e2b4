/** The line handling that exam_schedule.php and exam_schedule_new.php share:
    how the saved suggestion is cut into lines, the numbered-date prefix both
    entry patterns start with, and the filter that decides which unparsed
    lines are kept as notes. */
module ScheduleLines {
  import opened Text
  import opened Wrappers

  /** The suggestion trimmed as a whole and cut at every "\n"
      (exam_schedule.php:294, exam_schedule_new.php:272). */
  function SuggestionLines(suggestion: string): (lines: seq<string>)
    ensures |lines| >= 1
    ensures Join(lines, '\n') == PhpTrim(suggestion)
  {
    Split(PhpTrim(suggestion), '\n')
  }

  /** s begins with the digit shape \d{4}-\d{2}-\d{2}; only the shape is
      checked, not that it names a calendar day. */
  predicate StartsWithDate(s: string) {
    && |s| >= 10
    && IsDigit(s[0]) && IsDigit(s[1]) && IsDigit(s[2]) && IsDigit(s[3])
    && s[4] == '-' && IsDigit(s[5]) && IsDigit(s[6])
    && s[7] == '-' && IsDigit(s[8]) && IsDigit(s[9])
  }

  /** The introductory and closing phrases the pages drop: a line starting,
      ignoring ASCII case, with "here is", "based on", "schedule", "note:" or
      a code fence. */
  predicate IsPreamble(line: string) {
    || StartsWithIgnoreCase(line, "here is")
    || StartsWithIgnoreCase(line, "based on")
    || StartsWithIgnoreCase(line, "schedule")
    || StartsWithIgnoreCase(line, "note:")
    || StartsWithIgnoreCase(line, "```")
  }

  /** A line that is not an entry is kept as a note unless it starts with a
      date or with one of the preamble phrases. */
  predicate KeptAsNote(line: string) {
    !StartsWithDate(line) && !IsPreamble(line)
  }

  /** How a trimmed suggestion line is classified: skipped as blank (PHP
      empty(), so "0" too), a schedule entry, a note, or dropped. */
  datatype Kind =
    | Blank
    | Entry(date: string, payload: string)
    | Note(text: string)
    | Ignored

  /** The prefix ^\d+\.\s*(\d{4}-\d{2}-\d{2}) that both entry patterns begin
      with: the ten characters of the date and the text after them. */
  function NumberedDate(line: string): (r: Option<(string, string)>)
    ensures r.Some? ==> |r.value.0| == 10 && StartsWithDate(r.value.0)
  {
    var n := LeadLen(line, IsDigit);
    if n == 0 || n == |line| || line[n] != '.' then None
    else
      var after := line[n + 1..];
      var rest := after[LeadLen(after, IsRegexSpace)..];
      if StartsWithDate(rest) then Some((rest[..10], rest[10..])) else None
  }

  /** A line of the form digits "." spaces date rest. */
  predicate IsNumberedDate(line: string, digits: string, spaces: string, date: string, rest: string) {
    && line == digits + "." + spaces + date + rest
    && |digits| > 0 && AllDigits(digits)
    && (forall k :: 0 <= k < |spaces| ==> IsRegexSpace(spaces[k]))
    && |date| == 10 && StartsWithDate(date)
  }

  /** NumberedDate finds a date exactly in the lines of the pattern's shape;
      NumberedDateOf says the one it finds is the only decomposition. */
  lemma NumberedDateExactly(line: string)
    ensures NumberedDate(line).Some? <==>
      exists digits, spaces, date, rest :: IsNumberedDate(line, digits, spaces, date, rest)
  {
    if exists digits, spaces, date, rest :: IsNumberedDate(line, digits, spaces, date, rest) {
      var digits, spaces, date, rest :| IsNumberedDate(line, digits, spaces, date, rest);
      NumberedDateOf(line, digits, spaces, date, rest);
    }
    if NumberedDate(line).Some? {
      NumberedDateShape(line);
    }
  }

  /** What NumberedDate finds is a decomposition of the line. */
  lemma NumberedDateShape(line: string)
    requires NumberedDate(line).Some?
    ensures exists digits, spaces, date, rest :: IsNumberedDate(line, digits, spaces, date, rest)
  {
    var n, w := NumberedDateCuts(line);
    Reassemble(line, n, w);
    var after := line[n + 1..];
    var rest := after[w..];
    Decomposed(line, line[..n], after[..w], rest[..10], rest[10..]);
  }

  lemma Decomposed(line: string, digits: string, spaces: string, date: string, rest: string)
    requires IsNumberedDate(line, digits, spaces, date, rest)
    ensures exists digits, spaces, date, rest :: IsNumberedDate(line, digits, spaces, date, rest)
  {
  }

  /** The cuts NumberedDate makes in a line it accepts: n digits, a dot, then
      w spaces before the date. */
  lemma NumberedDateCuts(line: string) returns (n: nat, w: nat)
    requires NumberedDate(line).Some?
    ensures 0 < n < |line| && line[n] == '.'
    ensures forall k :: 0 <= k < n ==> IsDigit(line[k])
    ensures w <= |line| - n - 1
    ensures forall k :: n + 1 <= k < n + 1 + w ==> IsRegexSpace(line[k])
    ensures StartsWithDate(line[n + 1..][w..])
  {
    n := LeadLen(line, IsDigit);
    var after := line[n + 1..];
    w := LeadLen(after, IsRegexSpace);
    forall k | n + 1 <= k < n + 1 + w ensures IsRegexSpace(line[k]) {
      assert line[k] == after[k - n - 1];
    }
  }

  /** Digits, a dot, spaces and a date cut out of a line make up the line. */
  lemma Reassemble(line: string, n: nat, w: nat)
    requires 0 < n < |line| && line[n] == '.'
    requires forall k :: 0 <= k < n ==> IsDigit(line[k])
    requires w <= |line| - n - 1
    requires forall k :: n + 1 <= k < n + 1 + w ==> IsRegexSpace(line[k])
    requires StartsWithDate(line[n + 1..][w..])
    ensures var after := line[n + 1..]; var rest := after[w..];
      IsNumberedDate(line, line[..n], after[..w], rest[..10], rest[10..])
  {
    var after := line[n + 1..];
    var rest := after[w..];
    var digits, spaces, date, tail := line[..n], after[..w], rest[..10], rest[10..];
    CutAround(line, n);
    assert after == spaces + rest;
    assert rest == date + tail;
    Regroup(digits, ".", spaces, date, tail);
    assert AllDigits(digits);
    assert forall k :: 0 <= k < |spaces| ==> IsRegexSpace(spaces[k]) by {
      forall k | 0 <= k < |spaces| ensures IsRegexSpace(spaces[k]) {
        assert spaces[k] == line[n + 1 + k];
      }
    }
  }

  lemma CutAround(s: string, n: nat)
    requires n < |s|
    ensures s == s[..n] + [s[n]] + s[n + 1..]
  {
  }

  lemma Regroup(a: string, b: string, c: string, d: string, e: string)
    ensures a + b + (c + (d + e)) == a + b + c + d + e
  {
  }

  /** The decomposition of a line of the pattern's shape is the one
      NumberedDate computes. */
  lemma NumberedDateOf(line: string, digits: string, spaces: string, date: string, rest: string)
    requires IsNumberedDate(line, digits, spaces, date, rest)
    ensures NumberedDate(line) == Some((date, rest))
  {
    var body := spaces + date + rest;
    assert line == digits + "." + body;
    DigitsThenDot(line, digits, body);
    SpacesThenDate(body, spaces, date + rest);
    assert (date + rest)[..10] == date;
    assert (date + rest)[10..] == rest;
  }

  lemma DigitsThenDot(line: string, digits: string, body: string)
    requires line == digits + "." + body
    requires |digits| > 0 && AllDigits(digits)
    ensures LeadLen(line, IsDigit) == |digits| < |line|
    ensures line[|digits|] == '.' && line[|digits| + 1..] == body
  {
    assert forall k :: 0 <= k < |digits| ==> line[k] == digits[k];
    LeadLenExact(line, IsDigit, |digits|);
  }

  lemma SpacesThenDate(body: string, spaces: string, tail: string)
    requires body == spaces + tail
    requires forall k :: 0 <= k < |spaces| ==> IsRegexSpace(spaces[k])
    requires |tail| > 0 && IsDigit(tail[0])
    ensures body[LeadLen(body, IsRegexSpace)..] == tail
  {
    assert body[|spaces|] == tail[0];
    LeadLenExact(body, IsRegexSpace, |spaces|);
  }

  /** LeadLen is n when the first n characters are in the class and the next
      one, if any, is not. */
  lemma {:induction false} LeadLenExact(s: string, sp: char -> bool, n: nat)
    requires n <= |s|
    requires forall k :: 0 <= k < n ==> sp(s[k])
    requires n < |s| ==> !sp(s[n])
    ensures LeadLen(s, sp) == n
    decreases n
  {
    if n > 0 {
      LeadLenExact(s[1..], sp, n - 1);
    }
  }

  /** A line that starts like an entry is never dropped by the note filter:
      it begins with a digit, so with no preamble phrase, and its dot comes
      where a date would need a digit or a dash. */
  lemma NumberedKeptAsNote(line: string)
    requires NumberedDate(line).Some?
    ensures KeptAsNote(line)
  {
    var n := LeadLen(line, IsDigit);
    assert IsDigit(line[0]) && line[n] == '.';
    NotPreamble(line);
    if n < 4 {
      assert !IsDigit(line[n]);
    } else if n > 4 {
      assert IsDigit(line[4]);
    }
  }

  lemma NotPreamble(line: string)
    requires |line| > 0 && IsDigit(line[0])
    ensures !IsPreamble(line)
  {
    forall p | p in ["here is", "based on", "schedule", "note:", "```"]
      ensures !StartsWithIgnoreCase(line, p)
    {
      if |p| <= |line| {
        assert line[..|p|][0] == line[0];
        assert LowerChar(line[0]) == line[0];
      }
    }
  }
}
