/** Section detection and row validation of analyze_csv.php: how a pre-split CSV
    row is re-serialised for the header comparison, which header columns are
    mandatory, which rows end the marks section, and which data rows become
    mark records. */
module CsvSection {
  import opened Text
  import opened Wrappers

  /** One CSV record as fgetcsv() returns it: its fields, already unquoted. */
  type Row = seq<string>

  /** A validated and normalised marks row. */
  datatype MarkRecord = MarkRecord(studentId: string, courseCode: string, total: real, grade: string)

  // ---------------------------------------------------------------------------
  // Header re-serialisation (analyze_csv.php:38)
  // ---------------------------------------------------------------------------

  /** Doubles every double quote, as str_replace('"', '""', $field). */
  function DoubleQuotes(f: string): (r: string)
    ensures |r| >= |f|
    ensures '"' !in f ==> r == f
  {
    if f == [] then []
    else (if f[0] == '"' then "\"\"" else [f[0]]) + DoubleQuotes(f[1..])
  }

  /** Reads doubled quotes back as single ones: the inverse of DoubleQuotes. */
  function UndoubleQuotes(s: string): string
    decreases |s|
  {
    if s == [] then []
    else if |s| >= 2 && s[0] == '"' && s[1] == '"' then "\"" + UndoubleQuotes(s[2..])
    else [s[0]] + UndoubleQuotes(s[1..])
  }

  /** Escaping a field and reading it back gives the field: escaped quotes as
      in rule 7 of section 2 of RFC 4180 lose nothing. */
  lemma {:induction false} UndoubleDouble(f: string)
    ensures UndoubleQuotes(DoubleQuotes(f)) == f
    decreases |f|
  {
    if f != [] {
      UndoubleDouble(f[1..]);
      if f[0] == '"' {
        assert DoubleQuotes(f) == "\"\"" + DoubleQuotes(f[1..]);
        assert DoubleQuotes(f)[2..] == DoubleQuotes(f[1..]);
      } else {
        assert DoubleQuotes(f) == [f[0]] + DoubleQuotes(f[1..]);
        assert DoubleQuotes(f)[1..] == DoubleQuotes(f[1..]);
      }
      assert f == [f[0]] + f[1..];
    }
  }

  /** A field wrapped in double quotes with inner quotes doubled. */
  function QuoteField(f: string): string {
    "\"" + DoubleQuotes(f) + "\""
  }

  /** A quoted field starts and ends with a double quote, and reading back
      what lies between gives the field. */
  lemma QuoteFieldRoundTrip(f: string)
    ensures var q := QuoteField(f);
      |q| >= 2 && q[0] == '"' && q[|q| - 1] == '"' && UndoubleQuotes(q[1..|q| - 1]) == f
  {
    UndoubleDouble(f);
    var q := QuoteField(f);
    assert q[1..|q| - 1] == DoubleQuotes(f);
  }

  /** The row rebuilt as a line: every field quoted, joined with commas. */
  function SerializeRow(row: Row): string {
    if |row| == 0 then ""
    else if |row| == 1 then QuoteField(row[0])
    else QuoteField(row[0]) + "," + SerializeRow(row[1..])
  }

  /** The comparison of analyze_csv.php:42: the trimmed re-serialised row
      equals the trimmed target header line. */
  predicate IsHeaderRow(row: Row, marksHeader: string) {
    PhpTrim(SerializeRow(row)) == PhpTrim(marksHeader)
  }

  /** The first position whose element satisfies p, if any. */
  function FirstIndex<T>(s: seq<T>, p: T -> bool): (k: Option<nat>)
    ensures k.None? <==> forall j :: 0 <= j < |s| ==> !p(s[j])
    ensures k.Some? ==> k.value < |s| && p(s[k.value])
    ensures k.Some? ==> forall j :: 0 <= j < k.value ==> !p(s[j])
  {
    if |s| == 0 then None
    else if p(s[0]) then Some(0)
    else
      match FirstIndex(s[1..], p)
      case None => None
      case Some(k) => Some(k + 1)
  }

  /** The header test of analyze_csv.php:42 as a predicate on rows. */
  function HeaderTest(marksHeader: string): Row -> bool {
    row => IsHeaderRow(row, marksHeader)
  }

  /** The first row that matches the header line, if any (the loop of
      analyze_csv.php:40-45 stops there). */
  function HeaderIndex(rows: seq<Row>, marksHeader: string): (k: Option<nat>)
    ensures k.None? <==> forall j :: 0 <= j < |rows| ==> !IsHeaderRow(rows[j], marksHeader)
    ensures k.Some? ==> k.value < |rows| && IsHeaderRow(rows[k.value], marksHeader)
    ensures k.Some? ==> forall j :: 0 <= j < k.value ==> !IsHeaderRow(rows[j], marksHeader)
  {
    FirstIndex(rows, HeaderTest(marksHeader))
  }

  // ---------------------------------------------------------------------------
  // Mandatory columns (analyze_csv.php:45-50)
  // ---------------------------------------------------------------------------

  /** The column names of a header row: each field stripped of spaces and quotes. */
  function Columns(row: Row): (cols: seq<string>)
    ensures |cols| == |row|
    ensures forall i :: 0 <= i < |row| ==> cols[i] == Unquote(row[i])
  {
    seq(|row|, i requires 0 <= i < |row| => Unquote(row[i]))
  }

  const RequiredColumns: seq<string> := ["id", "student_id", "course_code", "total", "grade"]

  predicate HasRequiredColumns(cols: seq<string>) {
    forall c :: c in RequiredColumns ==> c in cols
  }

  /** The columns are complete exactly when each of the five names of
      analyze_csv.php:47 is among them. */
  lemma RequiredColumnsMeaning(cols: seq<string>)
    ensures HasRequiredColumns(cols) <==>
      "id" in cols && "student_id" in cols && "course_code" in cols && "total" in cols && "grade" in cols
  {
    if HasRequiredColumns(cols) {
      assert RequiredColumns[0] in RequiredColumns;
      assert RequiredColumns[1] in RequiredColumns;
      assert RequiredColumns[2] in RequiredColumns;
      assert RequiredColumns[3] in RequiredColumns;
      assert RequiredColumns[4] in RequiredColumns;
    }
    if "id" in cols && "student_id" in cols && "course_code" in cols && "total" in cols && "grade" in cols {
      forall c | c in RequiredColumns ensures c in cols {
        var i :| 0 <= i < |RequiredColumns| && RequiredColumns[i] == c;
      }
    }
  }

  // ---------------------------------------------------------------------------
  // Section boundary (analyze_csv.php:56-67)
  // ---------------------------------------------------------------------------

  /** "12s", three ASCII digits, "25": eight characters. */
  predicate StudentIdShape(s: string) {
    |s| == 8 && s[0] == '1' && s[1] == '2' && s[2] == 's'
    && IsDigit(s[3]) && IsDigit(s[4]) && IsDigit(s[5]) && s[6] == '2' && s[7] == '5'
  }

  /** preg_match('/^12s\d{3}25$/', s): without the D modifier, `$` also matches
      in front of one final newline. */
  predicate MatchesStudentIdPattern(s: string) {
    StudentIdShape(s) || (|s| == 9 && s[8] == '\n' && StudentIdShape(s[..8]))
  }

  /** A row that ends the marks section: narrower than the header, or shaped
      like the header of the courses section or of the students section. */
  predicate EndsSection(row: Row, width: nat)
    ensures |row| < width ==> EndsSection(row, width)
    ensures |row| >= width && |row| > 3 ==> !EndsSection(row, width)
  {
    || |row| < width
    || (|row| == 3 && CtypeUpper(Unquote(row[0])))
    || (|row| == 2 && MatchesStudentIdPattern(Unquote(row[0])))
  }

  /** Index of the first row at or after `from` that ends the section, or |rows|. */
  function SectionEnd(rows: seq<Row>, from: nat, width: nat): (e: nat)
    requires from <= |rows|
    ensures from <= e <= |rows|
    ensures forall j :: from <= j < e ==> !EndsSection(rows[j], width)
    ensures e < |rows| ==> EndsSection(rows[e], width)
    decreases |rows| - from
  {
    if from == |rows| then from
    else if EndsSection(rows[from], width) then from
    else SectionEnd(rows, from + 1, width)
  }

  // ---------------------------------------------------------------------------
  // PHP is_numeric() and floatval() (analyze_csv.php:81, 88)
  // ---------------------------------------------------------------------------

  /** Number of leading ASCII digits of s. */
  function DigitRun(s: string): (n: nat)
    ensures n <= |s| && AllDigits(s[..n])
    ensures n < |s| ==> !IsDigit(s[n])
  {
    LeadLen(s, IsDigit)
  }

  predicate IsSign(c: char) {
    c == '+' || c == '-'
  }

  /** The optional exponent part "e[+-]digits" that must make up all of s. */
  function ExponentValue(s: string): Option<int> {
    if s == [] then Some(0)
    else if s[0] != 'e' && s[0] != 'E' then None
    else
      var t := s[1..];
      var neg := |t| > 0 && t[0] == '-';
      var u := if |t| > 0 && IsSign(t[0]) then t[1..] else t;
      if |u| > 0 && DigitRun(u) == |u| then
        var m: int := DigitsValue(u);
        Some(if neg then -m else m)
      else None
  }

  /** PHP 8 is_numeric() on a string together with the value floatval() gives it:
      optional surrounding whitespace, an optional sign, digits with an optional
      fraction (at least one digit in all), an optional exponent. None when the
      string is not numeric. */
  function NumericValue(s: string): (v: Option<real>)
    ensures v.Some? ==> exists k :: 0 <= k < |s| && IsDigit(s[k])
  {
    var b := TrimBy(s, IsRegexSpace);
    var neg := |b| > 0 && b[0] == '-';
    var m := if |b| > 0 && IsSign(b[0]) then b[1..] else b;
    match UnsignedValue(m)
    case None => None
    case Some(v) =>
      DigitThroughTrim(s, m);
      Some(if neg then -v else v)
  }

  /** A digit of the trimmed string, or of it without its first character,
      is a digit of the string. */
  lemma DigitThroughTrim(s: string, m: string)
    requires exists j :: 0 <= j < |m| && IsDigit(m[j])
    requires var b := TrimBy(s, IsRegexSpace); m == b || (|b| > 0 && m == b[1..])
    ensures exists k :: 0 <= k < |s| && IsDigit(s[k])
  {
    var b := TrimBy(s, IsRegexSpace);
    var j :| 0 <= j < |m| && IsDigit(m[j]);
    var lead := LeadLen(s, IsRegexSpace);
    var off := if m == b then 0 else 1;
    assert b == s[lead..|s| - TrailLen(s, IsRegexSpace)];
    assert m[j] == b[off + j] == s[lead + off + j];
  }

  /** The unsigned part of a numeric string: digits, an optional fraction and
      an optional exponent, with nothing after them. */
  function UnsignedValue(m: string): (v: Option<real>)
    ensures v.Some? ==> exists k :: 0 <= k < |m| && IsDigit(m[k])
  {
    var ni := DigitRun(m);
    var intPart := m[..ni];
    var afterInt := m[ni..];
    var hasPoint := |afterInt| > 0 && afterInt[0] == '.';
    var fracRun := if hasPoint then DigitRun(afterInt[1..]) else 0;
    var fracPart := if hasPoint then afterInt[1..][..fracRun] else "";
    var rest := if hasPoint then afterInt[1..][fracRun..] else afterInt;
    if ni + fracRun == 0 then None
    else
      assert IsDigit(m[if ni > 0 then 0 else ni + 1]) by {
        if ni > 0 {
          assert m[0] == intPart[0];
        } else {
          assert m[ni + 1] == afterInt[1..][0];
        }
      }
      match ExponentValue(rest)
      case None => None
      case Some(e) =>
        Some(Scaled(Mantissa(intPart, fracPart), e))
  }

  /** The value of the digits before and after the decimal point. */
  function Mantissa(intPart: string, fracPart: string): real
    requires AllDigits(intPart) && AllDigits(fracPart)
  {
    DigitsValue(intPart) as real + DigitsValue(fracPart) as real / Pow10(|fracPart|) as real
  }

  /** A mantissa times ten to the power e. */
  function Scaled(mantissa: real, e: int): real {
    if e >= 0 then mantissa * Pow10(e) as real
    else mantissa / Pow10(-e) as real
  }

  /** Canonical decimal spelling of a natural number. */
  function DecimalString(n: nat): (s: string)
    ensures |s| >= 1 && AllDigits(s)
  {
    if n < 10 then [('0' as int + n) as char]
    else DecimalString(n / 10) + [('0' as int + n % 10) as char]
  }

  lemma {:induction false} DecimalStringValue(n: nat)
    ensures DigitsValue(DecimalString(n)) == n
  {
    var s := DecimalString(n);
    if n >= 10 {
      DecimalStringValue(n / 10);
      assert s[..|s| - 1] == DecimalString(n / 10);
    }
  }

  /** Every natural number written in decimal is numeric, with its own value. */
  lemma NumericDecimal(n: nat)
    ensures NumericValue(DecimalString(n)) == Some(n as real)
  {
    DecimalStringValue(n);
    NumericOfDigits(DecimalString(n));
  }

  /** A non-empty run of digits is numeric and worth its digits. */
  lemma NumericOfDigits(s: string)
    requires |s| >= 1 && AllDigits(s)
    ensures NumericValue(s) == Some(DigitsValue(s) as real)
  {
    TrimByNoop(s, IsRegexSpace);
    assert !IsSign(s[0]);
    UnsignedOfDigits(s);
  }

  /** A plain run of digits has no fraction and no exponent. */
  lemma UnsignedOfDigits(s: string)
    requires |s| >= 1 && AllDigits(s)
    ensures UnsignedValue(s) == Some(DigitsValue(s) as real)
  {
    assert DigitRun(s) == |s| by {
      assert forall k :: 0 <= k < |s| ==> IsDigit(s[k]);
    }
    assert s[..|s|] == s;
    assert s[|s|..] == "";
    assert ExponentValue("") == Some(0);
    WholeMantissa(s);
  }

  lemma WholeMantissa(s: string)
    requires AllDigits(s)
    ensures Scaled(Mantissa(s, ""), 0) == DigitsValue(s) as real
  {
    assert Pow10(0) == 1 && DigitsValue("") == 0;
  }

  // ---------------------------------------------------------------------------
  // Row validation (analyze_csv.php:71-90)
  // ---------------------------------------------------------------------------

  /** Index of the last column called name, or -1: array_combine() keeps the
      value of the last column that carries a repeated name. */
  function LastIndex(cols: seq<string>, name: string): (j: int)
    ensures -1 <= j < |cols|
    ensures j >= 0 ==> cols[j] == name
    ensures forall k :: j < k < |cols| ==> cols[k] != name
    ensures j == -1 <==> name !in cols
  {
    if |cols| == 0 then -1
    else if cols[|cols| - 1] == name then |cols| - 1
    else LastIndex(cols[..|cols| - 1], name)
  }

  /** $row[name] after array_combine() and trim($value, ' "'); a missing column
      reads as null, which empty() and is_numeric() treat like "". */
  function Field(cols: seq<string>, row: Row, name: string): string
    requires |row| == |cols|
  {
    var j := LastIndex(cols, name);
    if j < 0 then "" else Unquote(row[j])
  }

  /** Keep-or-skip decision of analyze_csv.php:81 and the normalisation of
      lines 88-90: course code trimmed, grade upper-cased and trimmed, total
      converted to a number. */
  function ToRecord(cols: seq<string>, row: Row): (r: Option<MarkRecord>)
    requires |row| == |cols|
    ensures r.Some? ==> !PhpEmpty(r.value.studentId)
    ensures r.Some? ==> PhpTrim(r.value.courseCode) == r.value.courseCode && PhpTrim(r.value.grade) == r.value.grade
  {
    var sid := Field(cols, row, "student_id");
    var code := Field(cols, row, "course_code");
    var total := Field(cols, row, "total");
    var grade := Field(cols, row, "grade");
    if PhpEmpty(sid) || PhpEmpty(code) || PhpEmpty(grade) then None
    else
      match NumericValue(total)
      case None => None
      case Some(v) =>
        TrimByIdempotent(code, IsPhpSpace);
        TrimByIdempotent(ToUpper(grade), IsPhpSpace);
        Some(MarkRecord(sid, PhpTrim(code), v, PhpTrim(ToUpper(grade))))
  }

  /** A row is kept exactly when student_id, course_code and grade are
      non-empty under empty() and total is numeric; the record holds the
      trimmed code, the upper-cased trimmed grade and the total's value. */
  lemma ToRecordSpec(cols: seq<string>, row: Row)
    requires |row| == |cols|
    ensures var r := ToRecord(cols, row);
      && (r.Some? <==>
        && !PhpEmpty(Field(cols, row, "student_id"))
        && !PhpEmpty(Field(cols, row, "course_code"))
        && NumericValue(Field(cols, row, "total")).Some?
        && !PhpEmpty(Field(cols, row, "grade")))
      && (r.Some? ==>
        && r.value.courseCode == PhpTrim(Field(cols, row, "course_code"))
        && r.value.grade == PhpTrim(ToUpper(Field(cols, row, "grade")))
        && Some(r.value.total) == NumericValue(Field(cols, row, "total")))
  {
  }

  /** The records contributed by the section rows: rows whose width differs
      from the header are skipped, and so are rows that fail validation. */
  function SectionRecords(cols: seq<string>, section: seq<Row>): seq<MarkRecord>
    decreases |section|
  {
    if section == [] then []
    else
      var last := section[|section| - 1];
      var rec := if |last| == |cols| then ToRecord(cols, last) else None;
      SectionRecords(cols, section[..|section| - 1]) + (if rec.Some? then [rec.value] else [])
  }

  /** One more section row adds its record when it has the header's width and
      passes validation, and nothing otherwise. */
  lemma SectionRecordsSnoc(cols: seq<string>, section: seq<Row>, row: Row)
    ensures SectionRecords(cols, section + [row]) ==
      SectionRecords(cols, section) + (if IsValidRow(cols, row) then [ToRecord(cols, row).value] else [])
  {
    assert (section + [row])[..|section|] == section;
  }

  /** The section ends at e when no row from `from` up to e ends it and row e,
      if there is one, does. */
  lemma {:induction false} SectionEndAt(rows: seq<Row>, from: nat, width: nat, e: nat)
    requires from <= e <= |rows|
    requires forall j :: from <= j < e ==> !EndsSection(rows[j], width)
    requires e < |rows| ==> EndsSection(rows[e], width)
    ensures SectionEnd(rows, from, width) == e
    decreases e - from
  {
    if from < e {
      SectionEndAt(rows, from + 1, width, e);
    }
  }

  /** Exactly the rows of the header's width that pass validation contribute a
      record, each one. */
  lemma {:induction false} SectionRecordsCount(cols: seq<string>, section: seq<Row>)
    ensures |SectionRecords(cols, section)| == |ValidRowIndices(cols, section)|
    decreases |section|
  {
    if section != [] {
      var init, row := section[..|section| - 1], section[|section| - 1];
      assert section == init + [row];
      SectionRecordsCount(cols, init);
      PositionsSnoc(init, row, ValidIn(cols));
    }
  }

  /** Rows of the header's width that pass the validation of analyze_csv.php:81. */
  predicate IsValidRow(cols: seq<string>, row: Row) {
    |row| == |cols| && ToRecord(cols, row).Some?
  }

  /** The positions of a sequence whose element satisfies p. */
  function Positions<T>(s: seq<T>, p: T -> bool): set<nat> {
    set j: nat | j < |s| && p(s[j])
  }

  lemma PositionsSnoc<T>(s: seq<T>, x: T, p: T -> bool)
    ensures |Positions(s + [x], p)| == |Positions(s, p)| + (if p(x) then 1 else 0)
  {
    var t := s + [x];
    var before := Positions(s, p);
    var after := Positions(t, p);
    var added: set<nat> := if p(x) then {|s|} else {};
    forall j | j in after ensures j in before + added {
      if j < |s| { assert t[j] == s[j]; }
    }
    forall j | j in before + added ensures j in after {
      if j < |s| { assert t[j] == s[j]; }
    }
    assert after == before + added;
    assert |s| !in before;
  }

  /** The row test of analyze_csv.php:81 for a given header. */
  function ValidIn(cols: seq<string>): Row -> bool {
    row => IsValidRow(cols, row)
  }

  /** The positions of the valid rows of a section. */
  function ValidRowIndices(cols: seq<string>, section: seq<Row>): set<nat> {
    Positions(section, ValidIn(cols))
  }
}
