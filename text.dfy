/** Character classes and string helpers shared by the PHP and Python sites:
    the whitespace sets of PHP's trim(), Python's str.strip() and PCRE's \s,
    splitting on one character, ASCII case mapping and code-point ordering. */
module Text {

  /** The characters PHP's trim() strips by default: " \t\n\r\0\x0B". */
  predicate IsPhpSpace(c: char) {
    c == ' ' || c == '\t' || c == '\n' || c == '\r' || c == '\0' || c == '\U{0B}'
  }

  /** The characters Python's str.isspace() accepts, which str.strip() removes. */
  predicate IsPySpace(c: char) {
    c == ' ' || ('\t' <= c <= '\r') || ('\U{1C}' <= c <= '\U{1F}')
    || c == '\U{85}' || c == '\U{A0}' || c == '\U{1680}'
    || ('\U{2000}' <= c <= '\U{200A}') || c == '\U{2028}' || c == '\U{2029}'
    || c == '\U{202F}' || c == '\U{205F}' || c == '\U{3000}'
  }

  /** PCRE's \s outside Unicode mode: space, \t, \n, \x0B, \f, \r. */
  predicate IsRegexSpace(c: char) {
    c == ' ' || ('\t' <= c <= '\r')
  }

  /** The character set " \"" that analyze_csv.php passes to trim(). */
  predicate IsSpaceOrQuote(c: char) {
    c == ' ' || c == '"'
  }

  predicate IsDigit(c: char) {
    '0' <= c <= '9'
  }

  predicate IsUpperAscii(c: char) {
    'A' <= c <= 'Z'
  }

  predicate IsLowerAscii(c: char) {
    'a' <= c <= 'z'
  }

  predicate AllDigits(s: string) {
    forall i :: 0 <= i < |s| ==> IsDigit(s[i])
  }

  function Pow10(n: nat): (p: nat)
    ensures p >= 1
  {
    if n == 0 then 1 else 10 * Pow10(n - 1)
  }

  function DigitValue(c: char): nat
    requires IsDigit(c)
  {
    c as int - '0' as int
  }

  /** The value of a string of decimal digits. */
  function DigitsValue(s: string): nat
    requires AllDigits(s)
    decreases |s|
  {
    if s == [] then 0 else DigitsValue(s[..|s| - 1]) * 10 + DigitValue(s[|s| - 1])
  }

  /** Number of leading characters of s that belong to the class sp. */
  function LeadLen(s: string, sp: char -> bool): (n: nat)
    ensures n <= |s|
    ensures forall k :: 0 <= k < n ==> sp(s[k])
    ensures n < |s| ==> !sp(s[n])
  {
    if |s| == 0 || !sp(s[0]) then 0 else 1 + LeadLen(s[1..], sp)
  }

  /** Number of trailing characters of s that belong to the class sp. */
  function TrailLen(s: string, sp: char -> bool): (n: nat)
    ensures n <= |s|
    ensures forall k :: |s| - n <= k < |s| ==> sp(s[k])
    ensures n < |s| ==> !sp(s[|s| - 1 - n])
  {
    if |s| == 0 || !sp(s[|s| - 1]) then 0 else 1 + TrailLen(s[..|s| - 1], sp)
  }

  /** Removes every leading and trailing character of the class sp;
      TrimByShape says what is left. */
  function TrimBy(s: string, sp: char -> bool): string {
    var lead := LeadLen(s, sp);
    if lead == |s| then [] else
      var trail := TrailLen(s, sp);
      assert !sp(s[|s| - 1 - trail]);
      s[lead..|s| - trail]
  }

  /** The trimmed string is empty exactly when every character is in the
      class; otherwise it is the middle of s between the leading and trailing
      runs, and neither of its ends is in the class. */
  lemma TrimByShape(s: string, sp: char -> bool)
    ensures |TrimBy(s, sp)| <= |s|
    ensures TrimBy(s, sp) == [] <==> forall k :: 0 <= k < |s| ==> sp(s[k])
    ensures TrimBy(s, sp) != [] ==> !sp(TrimBy(s, sp)[0]) && !sp(TrimBy(s, sp)[|TrimBy(s, sp)| - 1])
    ensures TrimBy(s, sp) != [] ==> TrimBy(s, sp) == s[LeadLen(s, sp)..|s| - TrailLen(s, sp)]
  {
    var lead := LeadLen(s, sp);
    if lead < |s| {
      TrimByMiddle(s, sp);
      assert !sp(s[lead]);
    }
  }

  /** When some character is outside the class, the trim is the non-empty
      middle of s, with ends outside the class. */
  lemma TrimByMiddle(s: string, sp: char -> bool)
    requires LeadLen(s, sp) < |s|
    ensures LeadLen(s, sp) < |s| - TrailLen(s, sp)
    ensures TrimBy(s, sp) == s[LeadLen(s, sp)..|s| - TrailLen(s, sp)]
    ensures !sp(TrimBy(s, sp)[0]) && !sp(TrimBy(s, sp)[|TrimBy(s, sp)| - 1])
  {
    RunsApart(s, sp);
    MiddleEnds(s, sp);
    SliceEnds(s, sp, LeadLen(s, sp), TrailLen(s, sp));
  }

  /** The leading and trailing runs do not meet when some character is outside
      the class. */
  lemma RunsApart(s: string, sp: char -> bool)
    requires LeadLen(s, sp) < |s|
    ensures LeadLen(s, sp) < |s| - TrailLen(s, sp)
  {
    var lead := LeadLen(s, sp);
    assert !sp(s[lead]);
  }

  lemma MiddleEnds(s: string, sp: char -> bool)
    requires LeadLen(s, sp) < |s| - TrailLen(s, sp)
    ensures !sp(s[LeadLen(s, sp)]) && !sp(s[|s| - 1 - TrailLen(s, sp)])
  {
  }

  lemma SliceEnds(s: string, sp: char -> bool, lead: nat, trail: nat)
    requires lead < |s| - trail
    requires !sp(s[lead]) && !sp(s[|s| - 1 - trail])
    ensures var r := s[lead..|s| - trail]; !sp(r[0]) && !sp(r[|r| - 1])
  {
    var r := s[lead..|s| - trail];
    assert r[0] == s[lead];
    assert r[|r| - 1] == s[|s| - 1 - trail];
  }

  /** Trimming twice is trimming once. */
  lemma TrimByIdempotent(s: string, sp: char -> bool)
    ensures TrimBy(TrimBy(s, sp), sp) == TrimBy(s, sp)
  {
    TrimByShape(s, sp);
    var r := TrimBy(s, sp);
    if r != [] {
      assert LeadLen(r, sp) == 0;
      assert TrailLen(r, sp) == 0;
      assert r[0..|r|] == r;
    }
  }

  /** A string that neither starts nor ends with a class character is its own trim. */
  lemma TrimByNoop(s: string, sp: char -> bool)
    requires s != [] ==> !sp(s[0]) && !sp(s[|s| - 1])
    ensures TrimBy(s, sp) == s
  {
    if s != [] {
      assert LeadLen(s, sp) == 0;
      assert TrailLen(s, sp) == 0;
      assert s[0..|s|] == s;
    }
  }

  /** PHP trim($s). */
  function PhpTrim(s: string): string { TrimBy(s, IsPhpSpace) }

  /** Python s.strip(). */
  function PyStrip(s: string): string { TrimBy(s, IsPySpace) }

  /** PHP trim($s, ' "'). */
  function Unquote(s: string): string { TrimBy(s, IsSpaceOrQuote) }

  /** PHP empty() on a string: true exactly for "" and "0". */
  predicate PhpEmpty(s: string) {
    s == "" || s == "0"
  }

  /** Index of the first occurrence of c in s, or |s| when there is none. */
  function FirstIndex(s: string, c: char): (i: nat)
    ensures i <= |s|
    ensures i < |s| ==> s[i] == c
    ensures forall k :: 0 <= k < i ==> s[k] != c
    ensures i == |s| <==> c !in s
  {
    if |s| == 0 then 0
    else if s[0] == c then 0
    else 1 + FirstIndex(s[1..], c)
  }

  /** Glues parts back together with sep between consecutive parts. */
  function Join(parts: seq<string>, sep: char): string
    requires |parts| >= 1
  {
    if |parts| == 1 then parts[0] else parts[0] + [sep] + Join(parts[1..], sep)
  }

  /** PHP explode($sep, $s) and Python s.split(sep) for a one-character separator:
      the pieces between separators, in order, at least one. */
  function Split(s: string, sep: char): (parts: seq<string>)
    ensures |parts| >= 1
    ensures forall i :: 0 <= i < |parts| ==> sep !in parts[i]
    ensures Join(parts, sep) == s
    decreases |s|
  {
    var i := FirstIndex(s, sep);
    if i == |s| then [s]
    else
      var rest := Split(s[i + 1..], sep);
      assert s == s[..i] + [sep] + s[i + 1..];
      [s[..i]] + rest
  }

  /** Splitting the join of separator-free parts gives the parts back. */
  lemma {:induction false} SplitJoin(parts: seq<string>, sep: char)
    requires |parts| >= 1
    requires forall i :: 0 <= i < |parts| ==> sep !in parts[i]
    ensures Split(Join(parts, sep), sep) == parts
    decreases |parts|
  {
    if |parts| == 1 {
      assert FirstIndex(parts[0], sep) == |parts[0]|;
    } else {
      var s := Join(parts, sep);
      var tail := Join(parts[1..], sep);
      assert s == parts[0] + [sep] + tail;
      SeparatorAfterPart(parts[0], sep, tail);
      SplitJoin(parts[1..], sep);
    }
  }

  /** The first separator of part + [sep] + tail is the one after part, and
      cutting there gives part and tail back. */
  lemma SeparatorAfterPart(part: string, sep: char, tail: string)
    requires sep !in part
    ensures FirstIndex(part + [sep] + tail, sep) == |part|
    ensures (part + [sep] + tail)[..|part|] == part
    ensures (part + [sep] + tail)[|part| + 1..] == tail
  {
    var s := part + [sep] + tail;
    assert s[|part|] == sep;
    assert forall k :: 0 <= k < |part| ==> s[k] == part[k];
  }

  /** Splits s at its first occurrence of sep, as PHP explode($sep, $s, 2) and
      Python s.split(sep, 1) do when sep occurs in s. */
  function SplitFirst(s: string, sep: char): (p: (string, string))
    requires sep in s
    ensures sep !in p.0
    ensures s == p.0 + [sep] + p.1
  {
    var i := FirstIndex(s, sep);
    assert s == s[..i] + [sep] + s[i + 1..];
    (s[..i], s[i + 1..])
  }

  function UpperChar(c: char): (u: char)
    ensures IsLowerAscii(c) ==> IsUpperAscii(u)
    ensures !IsLowerAscii(c) ==> u == c
  {
    if IsLowerAscii(c) then (c as int - 32) as char else c
  }

  function LowerChar(c: char): (l: char)
    ensures IsUpperAscii(c) ==> IsLowerAscii(l)
    ensures !IsUpperAscii(c) ==> l == c
  {
    if IsUpperAscii(c) then (c as int + 32) as char else c
  }

  /** PHP strtoupper(): maps the ASCII letters a-z to A-Z and keeps everything else. */
  function ToUpper(s: string): (r: string)
    ensures |r| == |s|
    ensures forall i :: 0 <= i < |s| ==> r[i] == UpperChar(s[i])
  {
    seq(|s|, i requires 0 <= i < |s| => UpperChar(s[i]))
  }

  /** ASCII case-insensitive equality, as PHP strcasecmp($a, $b) === 0. */
  predicate EqualsIgnoreCase(a: string, b: string) {
    |a| == |b| && forall i :: 0 <= i < |a| ==> LowerChar(a[i]) == LowerChar(b[i])
  }

  /** s begins with prefix, ignoring ASCII case, as a PCRE /^prefix/i test. */
  predicate StartsWithIgnoreCase(s: string, prefix: string) {
    |prefix| <= |s| && EqualsIgnoreCase(s[..|prefix|], prefix)
  }

  /** PHP ctype_upper(): a non-empty string of ASCII capitals only. */
  predicate CtypeUpper(s: string) {
    |s| > 0 && forall i :: 0 <= i < |s| ==> IsUpperAscii(s[i])
  }

  /** Code-point lexicographic order: Python's string comparison and PHP's
      comparison of two non-numeric strings. */
  predicate StrLe(a: string, b: string)
    decreases |a|
  {
    if |a| == 0 then true
    else if |b| == 0 then false
    else if a[0] != b[0] then a[0] < b[0]
    else StrLe(a[1..], b[1..])
  }

  predicate StrLt(a: string, b: string) {
    StrLe(a, b) && a != b
  }

  lemma {:induction false} StrLeReflexive(a: string)
    ensures StrLe(a, a)
    decreases |a|
  {
    if |a| > 0 { StrLeReflexive(a[1..]); }
  }

  lemma {:induction false} StrLeTotal(a: string, b: string)
    ensures StrLe(a, b) || StrLe(b, a)
    decreases |a|
  {
    if |a| > 0 && |b| > 0 && a[0] == b[0] { StrLeTotal(a[1..], b[1..]); }
  }

  lemma {:induction false} StrLeAntisymmetric(a: string, b: string)
    requires StrLe(a, b) && StrLe(b, a)
    ensures a == b
    decreases |a|
  {
    if |a| > 0 && |b| > 0 {
      StrLeAntisymmetric(a[1..], b[1..]);
      assert a == [a[0]] + a[1..];
      assert b == [b[0]] + b[1..];
    }
  }

  lemma {:induction false} StrLeTransitive(a: string, b: string, c: string)
    requires StrLe(a, b) && StrLe(b, c)
    ensures StrLe(a, c)
    decreases |a|
  {
    if |a| > 0 && |b| > 0 && |c| > 0 && a[0] == b[0] && b[0] == c[0] {
      StrLeTransitive(a[1..], b[1..], c[1..]);
    }
  }
}
