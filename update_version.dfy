/**
 * The release script that keeps the VERSION file and pyproject.toml in step: a semantic
 * version validator, the line rewrite of pyproject.toml, the VERSION write/read round trip,
 * and the command's strip -> validate -> write flow. Files are strings held by a
 * `Repository`; a missing file is `None`.
 */
module UpdateVersion {
  import opened Wrappers
  import opened Strings

  // ---------------------------------------------------------------------------
  // Version validation: ^\d+\.\d+\.\d+(-[a-zA-Z0-9\-\.]+)?$ under re.match
  // ---------------------------------------------------------------------------

  predicate IsDigit(c: char) {
    '0' <= c <= '9'
  }

  /** The characters of the pre-release suffix: ASCII letters, digits, '-' and '.'. */
  predicate IsSuffixChar(c: char) {
    'a' <= c <= 'z' || 'A' <= c <= 'Z' || IsDigit(c) || c == '-' || c == '.'
  }

  /** The number of leading ASCII digits of s. */
  function LeadingDigits(s: string): (n: nat)
    ensures n <= |s|
    ensures forall k :: 0 <= k < n ==> IsDigit(s[k])
    ensures n < |s| ==> !IsDigit(s[n])
    decreases |s|
  {
    if s != [] && IsDigit(s[0]) then
      var n := 1 + LeadingDigits(s[1..]);
      assert forall k :: 1 <= k < n ==> s[k] == s[1..][k - 1];
      n
    else 0
  }

  // The pattern is scanned left to right, one `\d+` field at a time, on what is left of the string.

  /** `\d+(-[a-zA-Z0-9\-\.]+)?` up to the end. */
  predicate ScanPatch(u: string) {
    var c := LeadingDigits(u);
    0 < c && IsSuffix(u[c..])
  }

  /** `\d+\.` followed by the patch field. */
  predicate ScanMinor(t: string) {
    var b := LeadingDigits(t);
    0 < b < |t| && t[b] == '.' && ScanPatch(t[b + 1..])
  }

  /** The whole pattern with nothing after it (no final-newline allowance). */
  predicate IsCoreVersion(s: string) {
    var a := LeadingDigits(s);
    0 < a < |s| && s[a] == '.' && ScanMinor(s[a + 1..])
  }

  /**
   * `validate_version`: Python's `$` matches at the end of the string and also just before a
   * single final newline, so one trailing "\n" is accepted. An accepted string starts with a
   * digit and holds only letters, digits, '-' and '.', apart from that final newline.
   */
  predicate Validate(v: string): (ok: bool)
    ensures ok ==> v != [] && IsDigit(v[0])
    ensures ok ==> forall k :: 0 <= k < |v| ==> IsSuffixChar(v[k]) || (k == |v| - 1 && v[k] == '\n')
  {
    if IsCoreVersion(v) then
      CoreVersionChars(v);
      true
    else if |v| > 0 && v[|v| - 1] == '\n' && IsCoreVersion(v[..|v| - 1]) then
      CoreVersionChars(v[..|v| - 1]);
      true
    else false
  }

  /** The optional pre-release part: empty, or '-' and at least one suffix character. */
  predicate IsSuffix(t: string) {
    t == [] || (|t| >= 2 && t[0] == '-' && forall k :: 1 <= k < |t| ==> IsSuffixChar(t[k]))
  }

  // The grammar the pattern denotes, stated independently of the scanner.

  predicate IsDigitRun(d: string) {
    |d| > 0 && forall k :: 0 <= k < |d| ==> IsDigit(d[k])
  }

  predicate Composes(s: string, major: string, minor: string, patch: string, suffix: string) {
    IsDigitRun(major) && IsDigitRun(minor) && IsDigitRun(patch) && IsSuffix(suffix) &&
    s == major + "." + (minor + "." + (patch + suffix))
  }

  /** MAJOR.MINOR.PATCH, three non-empty digit runs, optionally followed by '-' and a non-empty suffix. */
  ghost predicate IsSemVer(s: string) {
    exists major, minor, patch, suffix :: Composes(s, major, minor, patch, suffix)
  }

  /** A digit run followed by a non-digit (or nothing) is exactly the leading digits. */
  lemma LeadingDigitsOf(x: string, y: string)
    requires IsDigitRun(x)
    requires y == [] || !IsDigit(y[0])
    ensures LeadingDigits(x + y) == |x|
  {
    assert forall k :: 0 <= k < |x| ==> (x + y)[k] == x[k];
    assert y != [] ==> (x + y)[|x|] == y[0];
  }

  /** The patch field: a digit run followed by a non-digit (or nothing) scans iff the rest is a suffix. */
  lemma PatchOf(patch: string, suffix: string)
    requires IsDigitRun(patch)
    requires suffix == [] || !IsDigit(suffix[0])
    ensures ScanPatch(patch + suffix) <==> IsSuffix(suffix)
  {
    LeadingDigitsOf(patch, suffix);
    assert (patch + suffix)[|patch|..] == suffix;
  }

  /** The minor field: a digit run and a dot scan iff the rest scans as the patch field. */
  lemma MinorOf(minor: string, u: string)
    requires IsDigitRun(minor)
    ensures ScanMinor(minor + "." + u) <==> ScanPatch(u)
  {
    var t := minor + "." + u;
    assert t == minor + ("." + u);
    LeadingDigitsOf(minor, "." + u);
    assert t[|minor| + 1..] == u;
  }

  /** The major field: a digit run and a dot scan iff the rest scans as the minor field. */
  lemma MajorOf(major: string, t: string)
    requires IsDigitRun(major)
    ensures IsCoreVersion(major + "." + t) <==> ScanMinor(t)
  {
    var s := major + "." + t;
    assert s == major + ("." + t);
    LeadingDigitsOf(major, "." + t);
    assert s[|major| + 1..] == t;
  }

  lemma PatchFields(u: string) returns (patch: string, suffix: string)
    requires ScanPatch(u)
    ensures IsDigitRun(patch) && IsSuffix(suffix) && u == patch + suffix
  {
    var c := LeadingDigits(u);
    patch, suffix := u[..c], u[c..];
  }

  lemma MinorFields(t: string) returns (minor: string, u: string)
    requires ScanMinor(t)
    ensures IsDigitRun(minor) && ScanPatch(u) && t == minor + "." + u
  {
    var b := LeadingDigits(t);
    minor, u := t[..b], t[b + 1..];
    assert t == t[..b] + [t[b]] + t[b + 1..];
  }

  lemma MajorFields(s: string) returns (major: string, t: string)
    requires IsCoreVersion(s)
    ensures IsDigitRun(major) && ScanMinor(t) && s == major + "." + t
  {
    var a := LeadingDigits(s);
    major, t := s[..a], s[a + 1..];
    assert s == s[..a] + [s[a]] + s[a + 1..];
  }

  /** The fields the scanner finds compose the string. */
  lemma CoreVersionComposes(s: string)
    requires IsCoreVersion(s)
    ensures IsSemVer(s)
  {
    var major, t := MajorFields(s);
    var minor, u := MinorFields(t);
    var patch, suffix := PatchFields(u);
    assert Composes(s, major, minor, patch, suffix);
  }

  /** A string of the grammar passes the scanner. */
  lemma SemVerScans(s: string, major: string, minor: string, patch: string, suffix: string)
    requires Composes(s, major, minor, patch, suffix)
    ensures IsCoreVersion(s)
  {
    var u := patch + suffix;
    var t := minor + "." + u;
    assert s == major + "." + t;
    PatchOf(patch, suffix);
    MinorOf(minor, u);
    MajorOf(major, t);
  }

  /** The scanner accepts exactly the strings of the grammar. */
  lemma CoreVersionIsSemVer(s: string)
    ensures IsCoreVersion(s) <==> IsSemVer(s)
  {
    if IsCoreVersion(s) {
      CoreVersionComposes(s);
    }
    if IsSemVer(s) {
      var major, minor, patch, suffix :| Composes(s, major, minor, patch, suffix);
      SemVerScans(s, major, minor, patch, suffix);
    }
  }

  /** `validate_version` accepts a grammar string, optionally followed by one newline, and nothing else. */
  lemma ValidateMeaning(v: string)
    ensures Validate(v) <==>
      IsSemVer(v) || (|v| > 0 && v[|v| - 1] == '\n' && IsSemVer(v[..|v| - 1]))
  {
    CoreVersionIsSemVer(v);
    if |v| > 0 {
      CoreVersionIsSemVer(v[..|v| - 1]);
    }
  }

  /** Accepted: a plain release. */
  lemma ValidateAcceptsRelease()
    ensures Validate("0.13.0")
  {
    assert "0.13.0" == "0" + "." + ("13" + "." + ("0" + ""));
    SemVerScans("0.13.0", "0", "13", "0", "");
  }

  /** Accepted: a pre-release. */
  lemma ValidateAcceptsPreRelease()
    ensures Validate("1.2.3-rc.1")
  {
    assert "1.2.3-rc.1" == "1" + "." + ("2" + "." + ("3" + "-rc.1"));
    SemVerScans("1.2.3-rc.1", "1", "2", "3", "-rc.1");
  }

  /** One final newline after a version of the grammar is accepted too. */
  lemma ValidateAllowsFinalNewline(v: string)
    requires IsCoreVersion(v)
    ensures Validate(v + "\n")
  {
    assert (v + "\n")[..|v|] == v;
  }

  lemma ScansRelease123()
    ensures IsCoreVersion("1.2.3")
  {
    assert "1.2.3" == "1" + "." + ("2" + "." + ("3" + ""));
    SemVerScans("1.2.3", "1", "2", "3", "");
  }

  /** Accepted: a release followed by one newline. */
  lemma ValidateAcceptsFinalNewline()
    ensures Validate("1.2.3\n")
  {
    ScansRelease123();
    ValidateAllowsFinalNewline("1.2.3");
    assert "1.2.3" + "\n" == "1.2.3\n";
  }

  /** Rejected: two components and a leading 'v'. */
  lemma ValidateRejectsShape()
    ensures !Validate("1.2") && !Validate("v1.2.3")
  {
    assert "1.2" == "1" + "." + "2";
    MajorOf("1", "2");
    LeadingDigitsOf("2", "");
    assert "2" + "" == "2";
    assert LeadingDigits("v1.2.3") == 0;
  }

  /** Rejected: build metadata. */
  lemma ValidateRejectsMetadata()
    ensures !Validate("1.2.3+meta")
  {
    var v := "1.2.3+meta";
    assert v[5] == '+' && !IsSuffixChar(v[5]);
  }

  /** Rejected: an empty pre-release. */
  lemma ValidateRejectsEmptyPreRelease()
    ensures !Validate("1.2.3-")
  {
    var v := "1.2.3-";
    assert !IsCoreVersion(v) by {
      assert v == "1" + "." + ("2" + "." + ("3" + "-"));
      MajorOf("1", "2" + "." + ("3" + "-"));
      MinorOf("2", "3" + "-");
      PatchOf("3", "-");
    }
    assert v[|v| - 1] == '-';
  }

  lemma PatchChars(u: string)
    requires ScanPatch(u)
    ensures forall k :: 0 <= k < |u| ==> IsSuffixChar(u[k])
  {
  }

  lemma MinorChars(t: string)
    requires ScanMinor(t)
    ensures forall k :: 0 <= k < |t| ==> IsSuffixChar(t[k])
  {
    var b := LeadingDigits(t);
    PatchChars(t[b + 1..]);
    assert forall k :: b + 1 <= k < |t| ==> t[k] == t[b + 1..][k - b - 1];
  }

  /** Every character of a version of the grammar is a suffix character, and it starts with a digit. */
  lemma CoreVersionChars(v: string)
    requires IsCoreVersion(v)
    ensures forall k :: 0 <= k < |v| ==> IsSuffixChar(v[k])
    ensures IsDigit(v[0])
  {
    var a := LeadingDigits(v);
    MinorChars(v[a + 1..]);
    assert forall k :: a + 1 <= k < |v| ==> v[k] == v[a + 1..][k - a - 1];
  }

  /** A version of the grammar has no whitespace at either end. */
  lemma CoreVersionTrimmed(v: string)
    requires IsCoreVersion(v)
    ensures IsTrimmed(v)
  {
    CoreVersionChars(v);
    assert IsSuffixChar(v[|v| - 1]);
  }

  /** A validated version holds no backslash, so the rewrite template inserts it literally. */
  lemma ValidatedHasNoBackslash(v: string)
    requires Validate(v)
    ensures '\\' !in v
  {
    assert !IsSuffixChar('\\');
  }

  // ---------------------------------------------------------------------------
  // str.strip()
  // ---------------------------------------------------------------------------

  /** The characters `str.isspace` accepts, which `str.strip()` removes. */
  predicate IsWhitespace(c: char) {
    c == '\t' || c == '\n' || c == '\U{0B}' || c == '\U{0C}' || c == '\r' ||
    ('\U{1C}' <= c <= '\U{1F}') || c == ' ' || c == '\U{85}' || c == '\U{A0}' ||
    c == '\U{1680}' || ('\U{2000}' <= c <= '\U{200A}') || c == '\U{2028}' || c == '\U{2029}' ||
    c == '\U{202F}' || c == '\U{205F}' || c == '\U{3000}'
  }

  predicate AllWhitespace(s: string) {
    forall k :: 0 <= k < |s| ==> IsWhitespace(s[k])
  }

  /** Drops the leading whitespace: the result is a suffix, all dropped characters are whitespace, and it does not start with whitespace. */
  function LStrip(s: string): (r: string)
    ensures |r| <= |s| && r == s[|s| - |r|..]
    ensures AllWhitespace(s[..|s| - |r|])
    ensures r != [] ==> !IsWhitespace(r[0])
    decreases |s|
  {
    if s != [] && IsWhitespace(s[0]) then
      var r := LStrip(s[1..]);
      assert s[..|s| - |r|] == [s[0]] + s[1..][..|s| - 1 - |r|];
      r
    else s
  }

  /** Drops the trailing whitespace: the result is a prefix, all dropped characters are whitespace, and it does not end with whitespace. */
  function RStrip(s: string): (r: string)
    ensures |r| <= |s| && r == s[..|r|]
    ensures AllWhitespace(s[|r|..])
    ensures r != [] ==> !IsWhitespace(r[|r| - 1])
    decreases |s|
  {
    if s != [] && IsWhitespace(s[|s| - 1]) then
      var r := RStrip(s[..|s| - 1]);
      assert s[|r|..] == s[..|s| - 1][|r|..] + [s[|s| - 1]];
      r
    else s
  }

  /**
   * `str.strip()`: neither end of the result is whitespace; `StripShape` adds that s is the
   * result with whitespace padding on both sides, and `StripPadding` that this determines it.
   */
  function Strip(s: string): (r: string)
    ensures r != [] ==> !IsWhitespace(r[0]) && !IsWhitespace(r[|r| - 1])
  {
    var l := LStrip(s);
    var r := RStrip(l);
    assert r != [] ==> r[0] == l[0];
    r
  }

  /** The stripped string is a slice of the string, and only whitespace lies around it. */
  lemma StripShape(s: string)
    ensures PaddedBy(s, Strip(s))
  {
    var p, q := StripPieces(s);
    Padded(s, p, Strip(s), q);
  }

  /** The whitespace `strip` removes at the start and at the end. */
  lemma StripPieces(s: string) returns (p: string, q: string)
    ensures AllWhitespace(p) && AllWhitespace(q) && s == p + Strip(s) + q
  {
    var l := LStrip(s);
    var r := RStrip(l);
    StripParts(s, l, r);
    p, q := s[..|s| - |l|], l[|r|..];
  }

  lemma StripParts(s: string, l: string, r: string)
    requires |l| <= |s| && l == s[|s| - |l|..]
    requires |r| <= |l| && r == l[..|r|]
    ensures s == s[..|s| - |l|] + r + l[|r|..]
  {
    assert s == s[..|s| - |l|] + l;
    assert l == r + l[|r|..];
  }

  lemma Padded(s: string, p: string, r: string, q: string)
    requires AllWhitespace(p) && AllWhitespace(q) && s == p + r + q
    ensures PaddedBy(s, r)
  {
    assert s[|p|..|p| + |r|] == r && s[..|p|] == p && s[|p| + |r|..] == q;
  }

  /** s is r with whitespace padding on both sides: r is a slice of s, and everything around it is whitespace. */
  ghost predicate PaddedBy(s: string, r: string) {
    exists i :: 0 <= i <= |s| - |r| && s[i..i + |r|] == r && AllWhitespace(s[..i]) && AllWhitespace(s[i + |r|..])
  }

  /** A core without whitespace at either end. */
  predicate IsTrimmed(m: string) {
    m == [] || (!IsWhitespace(m[0]) && !IsWhitespace(m[|m| - 1]))
  }

  lemma LStripPadding(p: string, m: string)
    requires AllWhitespace(p)
    requires m == [] || !IsWhitespace(m[0])
    ensures LStrip(p + m) == m
  {
    var s := p + m;
    assert s[|p|..] == m;
  }

  lemma RStripPadding(m: string, q: string)
    requires AllWhitespace(q)
    requires m == [] || !IsWhitespace(m[|m| - 1])
    ensures RStrip(m + q) == m
  {
    var s := m + q;
    assert s[..|m|] == m;
  }

  /** `strip` removes exactly the whitespace padding around a trimmed core. */
  lemma StripPadding(p: string, m: string, q: string)
    requires AllWhitespace(p) && AllWhitespace(q)
    requires IsTrimmed(m)
    ensures Strip(p + m + q) == m
  {
    if m == [] {
      assert p + m + q == p + q;
      LStripPadding(p + q, []);
      assert p + q + [] == p + q;
      assert LStrip(p + q) == [];
    } else {
      assert p + m + q == p + (m + q);
      LStripPadding(p, m + q);
      RStripPadding(m, q);
    }
  }

  /** A string without whitespace at its ends strips to itself. */
  lemma StripTrimmed(m: string)
    requires IsTrimmed(m)
    ensures Strip(m) == m
  {
    assert [] + m + [] == m;
    StripPadding([], m, []);
  }

  /** Stripping twice is stripping once. */
  lemma StripIdempotent(s: string)
    ensures Strip(Strip(s)) == Strip(s)
  {
    StripTrimmed(Strip(s));
  }

  // ---------------------------------------------------------------------------
  // The VERSION file: write/read round trip
  // ---------------------------------------------------------------------------

  /**
   * `get_current_version` on the VERSION file's contents: "unknown" when it is missing,
   * otherwise the text without its surrounding whitespace.
   */
  function CurrentVersion(versionFile: Option<string>): (v: string)
    ensures versionFile.None? ==> v == "unknown"
    ensures versionFile.Some? ==>
      IsTrimmed(v) && PaddedBy(versionFile.value, v)
  {
    match versionFile
    case None => "unknown"
    case Some(text) => StripShape(text); Strip(text)
  }

  /** What `update_version_file` stores; the newline it adds never reaches a reader that strips. */
  function VersionFileText(v: string): (t: string)
    ensures Strip(t) == Strip(v)
  {
    StripFinalNewline(v);
    v + "\n"
  }

  lemma StripFinalNewline(s: string)
    ensures Strip(s + "\n") == Strip(s)
  {
    StripTrailingWhitespace(s, "\n");
  }

  /** Whitespace appended to a string does not change what it strips to. */
  lemma StripTrailingWhitespace(s: string, w: string)
    requires AllWhitespace(w)
    ensures Strip(s + w) == Strip(s)
  {
    var m := Strip(s);
    var p, q := StripPieces(s);
    assert AllWhitespace(q + w);
    AppendAssoc(p + m, q, w);
    StripPadding(p, m, q + w);
  }

  lemma AppendAssoc(a: string, b: string, c: string)
    ensures (a + b) + c == a + (b + c)
  {
  }

  /** Writing a version of the grammar and reading it back gives the same version. */
  lemma WriteReadRoundTrip(v: string)
    requires IsCoreVersion(v)
    ensures CurrentVersion(Some(VersionFileText(v))) == v
  {
    CoreVersionTrimmed(v);
    StripTrimmed(v);
  }

  /** A validated, already stripped version is a grammar string: the trailing newline allowance never applies to it. */
  lemma {:induction false} StrippedValidIsCore(v: string)
    requires Validate(v) && Strip(v) == v
    ensures IsCoreVersion(v)
  {
    StrippedEnd(v);
    ValidWithoutNewline(v);
  }

  lemma StrippedEnd(v: string)
    requires Validate(v) && Strip(v) == v
    ensures v[|v| - 1] != '\n'
  {
    assert IsWhitespace('\n');
  }

  lemma ValidWithoutNewline(v: string)
    requires Validate(v) && v[|v| - 1] != '\n'
    ensures IsCoreVersion(v)
  {
  }

  /**
   * The final-newline allowance breaks the round trip for an argument that was not stripped:
   * a grammar version followed by "\n" validates, but reads back without the newline.
   */
  lemma TrailingNewlineRoundTrip(v: string)
    requires IsCoreVersion(v)
    ensures Validate(v + "\n")
    ensures CurrentVersion(Some(VersionFileText(v + "\n"))) == v != v + "\n"
  {
    ValidateAllowsFinalNewline(v);
    CoreVersionTrimmed(v);
    NewlineArgumentReadsBack(v);
    assert |v + "\n"| != |v|;
  }

  /** A trimmed argument with a final newline is written with two and read back with none. */
  lemma NewlineArgumentReadsBack(v: string)
    requires IsTrimmed(v)
    ensures CurrentVersion(Some(VersionFileText(v + "\n"))) == v
  {
    StripTrimmed(v);
    StripFinalNewline(v);
  }

  /** The argument the command writes: valid once stripped, so free of backslashes, and it survives the round trip. */
  lemma AcceptedArgument(arg: string)
    requires Validate(Strip(arg))
    ensures '\\' !in Strip(arg)
    ensures CurrentVersion(Some(VersionFileText(Strip(arg)))) == Strip(arg)
  {
    var v := Strip(arg);
    ValidatedHasNoBackslash(v);
    StripIdempotent(arg);
    StrippedValidIsCore(v);
    WriteReadRoundTrip(v);
  }

  /** Surrounding whitespace around a grammar version never makes the command reject it. */
  lemma PaddedVersionValidates(p: string, v: string, q: string)
    requires AllWhitespace(p) && AllWhitespace(q)
    requires IsCoreVersion(v)
    ensures Strip(p + v + q) == v && Validate(Strip(p + v + q))
  {
    CoreVersionTrimmed(v);
    StripPadding(p, v, q);
  }

  // ---------------------------------------------------------------------------
  // pyproject.toml: re.sub(r'^version = ".*"$', ..., flags=re.MULTILINE)
  // ---------------------------------------------------------------------------

  const VERSION_PREFIX: string := "version = \""

  /** A line the multiline pattern matches in full: `version = "`, any text, and a closing quote. */
  predicate IsVersionLine(line: string): (ok: bool)
    ensures ok <==> exists x :: line == VERSION_PREFIX + x + "\""
  {
    VersionLineShape(line);
    |line| >= |VERSION_PREFIX| + 1 && line[..|VERSION_PREFIX|] == VERSION_PREFIX && line[|line| - 1] == '"'
  }

  lemma VersionLineShape(line: string)
    ensures (|line| >= |VERSION_PREFIX| + 1 && line[..|VERSION_PREFIX|] == VERSION_PREFIX && line[|line| - 1] == '"')
      <==> exists x :: line == VERSION_PREFIX + x + "\""
  {
    if |line| >= |VERSION_PREFIX| + 1 && line[..|VERSION_PREFIX|] == VERSION_PREFIX && line[|line| - 1] == '"' {
      var x := line[|VERSION_PREFIX|..|line| - 1];
      assert line == VERSION_PREFIX + x + "\"";
    }
    if exists x :: line == VERSION_PREFIX + x + "\"" {
      var x :| line == VERSION_PREFIX + x + "\"";
      assert line[..|VERSION_PREFIX|] == VERSION_PREFIX;
    }
  }

  /** The replacement text. */
  function VersionLine(v: string): string {
    VERSION_PREFIX + v + "\""
  }

  /**
   * One line of the substitution: a version line is replaced, any other kept. Which lines are
   * version lines does not change, and a line stays as it was exactly when it is no version
   * line or already reads `version = "<v>"`.
   */
  function RewriteLine(line: string, v: string): (r: string)
    ensures IsVersionLine(r) <==> IsVersionLine(line)
    ensures r == line <==> !IsVersionLine(line) || line == VersionLine(v)
  {
    VersionLineIsVersionLine(v);
    if IsVersionLine(line) then VersionLine(v) else line
  }

  function RewriteLines(lines: seq<string>, v: string): (r: seq<string>) {
    seq(|lines|, i requires 0 <= i < |lines| => RewriteLine(lines[i], v))
  }

  /**
   * The substitution on the file's contents; the template's backslash escapes are not
   * modelled, so the new version must hold no backslash. For a one-line version, the lines of
   * the result are the rewritten lines of the content.
   */
  function Rewrite(content: string, v: string): (r: string)
    requires '\\' !in v
    ensures '\n' !in v ==> Split(r, '\n') == RewriteLines(Split(content, '\n'), v)
  {
    RewrittenLinesSplit(Split(content, '\n'), v);
    Join(RewriteLines(Split(content, '\n'), v), '\n')
  }

  /** Rewritten lines hold no newline when the lines and the version hold none, so they split back apart. */
  lemma RewrittenLinesSplit(lines: seq<string>, v: string)
    requires |lines| >= 1
    requires forall k :: 0 <= k < |lines| ==> '\n' !in lines[k]
    ensures '\n' !in v ==> Split(Join(RewriteLines(lines, v), '\n'), '\n') == RewriteLines(lines, v)
  {
    if '\n' !in v {
      var out := RewriteLines(lines, v);
      forall k | 0 <= k < |out|
        ensures '\n' !in out[k]
      {
        if IsVersionLine(lines[k]) {
          assert out[k] == VERSION_PREFIX + v + "\"";
        }
      }
      SplitJoin(out, '\n');
    }
  }

  lemma VersionLineIsVersionLine(v: string)
    ensures IsVersionLine(VersionLine(v))
  {
    assert VersionLine(v)[..|VERSION_PREFIX|] == VERSION_PREFIX;
  }

  /**
   * The lines of the rewritten content are the original lines, with every version line
   * replaced by `version = "<v>"` and every other line unchanged.
   */
  lemma RewriteByLines(content: string, v: string)
    requires '\\' !in v && '\n' !in v
    ensures var before := Split(content, '\n');
      var after := Split(Rewrite(content, v), '\n');
      |after| == |before| &&
      forall i :: 0 <= i < |before| ==>
        after[i] == (if IsVersionLine(before[i]) then VersionLine(v) else before[i])
  {
  }

  /** Rewriting twice with the same version gives the same content as rewriting once. */
  lemma RewriteIdempotent(content: string, v: string)
    requires '\\' !in v && '\n' !in v
    ensures Rewrite(Rewrite(content, v), v) == Rewrite(content, v)
  {
    var once := Rewrite(content, v);
    RewriteByLines(content, v);
    VersionLineIsVersionLine(v);
    var lines := Split(content, '\n');
    assert RewriteLines(Split(once, '\n'), v) == RewriteLines(lines, v);
  }

  /** The rewrite leaves the content unchanged exactly when every version line already holds the new version. */
  lemma RewriteUnchangedIff(content: string, v: string)
    requires '\\' !in v && '\n' !in v
    ensures Rewrite(content, v) == content <==>
      forall i :: 0 <= i < |Split(content, '\n')| && IsVersionLine(Split(content, '\n')[i]) ==>
        Split(content, '\n')[i] == VersionLine(v)
  {
    var lines := Split(content, '\n');
    JoinSplit(content, '\n');
    RewriteByLines(content, v);
    if forall i :: 0 <= i < |lines| && IsVersionLine(lines[i]) ==> lines[i] == VersionLine(v) {
      assert RewriteLines(lines, v) == lines;
    }
  }

  // ---------------------------------------------------------------------------
  // The files and the command
  // ---------------------------------------------------------------------------

  /** The two files the script touches; `None` is a missing file. */
  class Repository {
    var versionFile: Option<string>
    var pyproject: Option<string>

    constructor (versionFile: Option<string>, pyproject: Option<string>)
      ensures this.versionFile == versionFile && this.pyproject == pyproject
    {
      this.versionFile := versionFile;
      this.pyproject := pyproject;
    }

    /** `update_version_file`: the VERSION file now holds the version and a newline. */
    method UpdateVersionFile(v: string)
      modifies this
      ensures versionFile == Some(VersionFileText(v))
      ensures pyproject == old(pyproject)
    {
      versionFile := Some(v + "\n");
    }

    /**
     * `update_pyproject_toml`: a missing file raises; otherwise the rewritten contents are
     * written back only when they differ, and the result says whether they did.
     */
    method UpdatePyprojectToml(v: string) returns (outcome: UpdateOutcome)
      requires '\\' !in v
      modifies this
      ensures versionFile == old(versionFile)
      ensures old(pyproject).None? ==> outcome == FileMissing && pyproject == None
      ensures old(pyproject).Some? ==>
        var content := old(pyproject).value;
        if Rewrite(content, v) == content then outcome == Updated(false) && pyproject == old(pyproject)
        else outcome == Updated(true) && pyproject == Some(Rewrite(content, v))
      ensures old(pyproject).Some? ==> pyproject == Some(Rewrite(old(pyproject).value, v))
      ensures outcome == FileMissing <==> old(pyproject).None?
    {
      match pyproject {
        case None =>
          outcome := FileMissing;
        case Some(content) =>
          var updated := Rewrite(content, v);
          if content == updated {
            outcome := Updated(false);
          } else {
            pyproject := Some(updated);
            outcome := Updated(true);
          }
      }
    }

    /**
     * `main`: `--current` shows the current version; otherwise the argument is required,
     * stripped and validated, and only then are VERSION and pyproject.toml written, in that
     * order. A missing pyproject.toml ends the run with status 1 after VERSION was written.
     */
    method RunMain(args: Args) returns (outcome: MainOutcome)
      modifies this
      ensures args.current ==>
        outcome == ShowCurrent(CurrentVersion(old(versionFile))) &&
        versionFile == old(versionFile) && pyproject == old(pyproject)
      ensures !args.current && !ProceedsToWrite(args) ==>
        outcome == Exit(1) && versionFile == old(versionFile) && pyproject == old(pyproject)
      ensures !args.current && ProceedsToWrite(args) ==>
        var v := Strip(args.version.value);
        versionFile == Some(VersionFileText(v)) &&
        CurrentVersion(versionFile) == v &&
        (old(pyproject).None? ==> outcome == Exit(1) && pyproject == None) &&
        (old(pyproject).Some? ==> outcome == Success && pyproject == Some(Rewrite(old(pyproject).value, v)))
    {
      if args.current {
        var current := CurrentVersion(versionFile);
        return ShowCurrent(current);
      }
      if args.version.None? || args.version.value == "" {
        return Exit(1);
      }
      var newVersion := Strip(args.version.value);
      if !Validate(newVersion) {
        return Exit(1);
      }
      AcceptedArgument(args.version.value);
      assert ProceedsToWrite(args);
      UpdateVersionFile(newVersion);
      assert CurrentVersion(versionFile) == newVersion;
      var result := UpdatePyprojectToml(newVersion);
      if result == FileMissing {
        return Exit(1);
      }
      outcome := Success;
    }
  }

  /** How `update_pyproject_toml` ended: it returned whether it wrote, or the missing file raised. */
  datatype UpdateOutcome = Updated(wrote: bool) | FileMissing

  /** The parsed command line: `--current` and the optional version argument. */
  datatype Args = Args(current: bool, version: Option<string>)

  /** How the command ends: the current version shown, an exit status, or a normal return. */
  datatype MainOutcome = ShowCurrent(version: string) | Exit(status: int) | Success

  /**
   * The argument is present, non-empty, and validates once stripped; the version written is
   * then free of backslashes and reads back unchanged.
   */
  predicate ProceedsToWrite(args: Args): (ok: bool)
    ensures ok ==> args.version.Some? && '\\' !in Strip(args.version.value)
    ensures ok ==> CurrentVersion(Some(VersionFileText(Strip(args.version.value)))) == Strip(args.version.value)
  {
    if args.version.Some? && args.version.value != "" && Validate(Strip(args.version.value)) then
      AcceptedArgument(args.version.value);
      true
    else false
  }
}
