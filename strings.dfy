/**
 * Python's `str.split(sep)` and `sep.join(parts)` for a one-character separator.
 * The dotted logger-name walk splits on '.', the version-file rewrite on '\n'.
 */
module Strings {

  /**
   * `sep.join(parts)`; every caller passes at least one part. `JoinSplit` and `SplitJoin`
   * state that it is the inverse of `Split`.
   */
  function Join(parts: seq<string>, sep: char): string
    requires |parts| >= 1
    decreases |parts|
  {
    if |parts| == 1 then parts[0]
    else Join(parts[..|parts| - 1], sep) + [sep] + parts[|parts| - 1]
  }

  /** Extends the parts of a string by one more character. */
  function Extend(parts: seq<string>, c: char, sep: char): (r: seq<string>)
    requires |parts| >= 1
    ensures |r| == if c == sep then |parts| + 1 else |parts|
    ensures (forall k :: 0 <= k < |parts| ==> sep !in parts[k]) ==> forall k :: 0 <= k < |r| ==> sep !in r[k]
  {
    if c == sep then parts + [""]
    else parts[..|parts| - 1] + [parts[|parts| - 1] + [c]]
  }

  /**
   * `s.split(sep)`: the maximal runs between separators, so that "" gives [""] and
   * "a..b" gives ["a", "", "b"]. Never empty (`SplitCount` gives the number of parts), and
   * no part holds the separator.
   */
  function Split(s: string, sep: char): (parts: seq<string>)
    ensures |parts| >= 1
    ensures forall k :: 0 <= k < |parts| ==> sep !in parts[k]
    decreases |s|
  {
    if s == [] then [""]
    else
      Extend(Split(s[..|s| - 1], sep), s[|s| - 1], sep)
  }

  /** There is one part more than there are separators. */
  lemma {:induction false} SplitCount(s: string, sep: char)
    ensures |Split(s, sep)| == multiset(s)[sep] + 1
    decreases |s|
  {
    if s != [] {
      var c := s[|s| - 1];
      assert s == s[..|s| - 1] + [c];
      SplitCount(s[..|s| - 1], sep);
    }
  }

  /** Appending one character to a string extends its parts by that character. */
  lemma SplitSnoc(s: string, c: char, sep: char)
    ensures Split(s + [c], sep) == Extend(Split(s, sep), c, sep)
  {
    assert (s + [c])[..|s|] == s;
  }

  lemma ExtendAppend(a: seq<string>, b: seq<string>, c: char, sep: char)
    requires |b| >= 1
    ensures Extend(a + b, c, sep) == a + Extend(b, c, sep)
  {
    var ab := a + b;
    if c != sep {
      assert ab[..|ab| - 1] == a + b[..|b| - 1];
    }
  }

  /** Joining the parts gives the string back. */
  lemma {:induction false} JoinSplit(s: string, sep: char)
    ensures Join(Split(s, sep), sep) == s
    decreases |s|
  {
    if s != [] {
      var s', c := s[..|s| - 1], s[|s| - 1];
      assert s == s' + [c];
      JoinSplit(s', sep);
      SplitSnoc(s', c, sep);
      JoinExtend(Split(s', sep), c, sep);
    }
  }

  /** Extending the parts by a character extends their join by that character. */
  lemma JoinExtend(init: seq<string>, c: char, sep: char)
    requires |init| >= 1
    ensures Join(Extend(init, c, sep), sep) == Join(init, sep) + [c]
  {
    var parts := Extend(init, c, sep);
    var n := |init|;
    if c == sep {
      assert parts[..|parts| - 1] == init;
    } else if n > 1 {
      assert parts[..|parts| - 1] == init[..n - 1];
      var j := Join(init[..n - 1], sep);
      assert Join(parts, sep) == j + [sep] + (init[n - 1] + [c]);
      assert Join(init, sep) == j + [sep] + init[n - 1];
    }
  }

  /** Splitting at one separator splits the two sides independently. */
  lemma {:induction false} SplitAppend(x: string, sep: char, y: string)
    ensures Split(x + [sep] + y, sep) == Split(x, sep) + Split(y, sep)
    decreases |y|
  {
    if y == [] {
      SplitSnoc(x, sep, sep);
      assert x + [sep] + y == x + [sep];
    } else {
      var y', c := y[..|y| - 1], y[|y| - 1];
      assert y == y' + [c];
      assert x + [sep] + y == (x + [sep] + y') + [c];
      SplitAppend(x, sep, y');
      SplitSnoc(x + [sep] + y', c, sep);
      SplitSnoc(y', c, sep);
      ExtendAppend(Split(x, sep), Split(y', sep), c, sep);
    }
  }

  /** A string without the separator is its own single part. */
  lemma SplitNoSep(y: string, sep: char)
    requires sep !in y
    ensures Split(y, sep) == [y]
  {
    SplitCount(y, sep);
    JoinSplit(y, sep);
    assert multiset(y)[sep] == 0;
  }

  /** Splitting undoes joining parts that hold no separator. */
  lemma {:induction false} SplitJoin(parts: seq<string>, sep: char)
    requires |parts| >= 1
    requires forall k :: 0 <= k < |parts| ==> sep !in parts[k]
    ensures Split(Join(parts, sep), sep) == parts
    decreases |parts|
  {
    if |parts| == 1 {
      SplitNoSep(parts[0], sep);
    } else {
      var init := parts[..|parts| - 1];
      SplitJoin(init, sep);
      SplitAppend(Join(init, sep), sep, parts[|parts| - 1]);
      SplitNoSep(parts[|parts| - 1], sep);
    }
  }

  /** Joining the first i parts gives a prefix of the whole join, followed by the separator. */
  lemma {:induction false} JoinPrefix(parts: seq<string>, sep: char, i: nat)
    requires 1 <= i < |parts|
    ensures Join(parts, sep) == Join(parts[..i], sep) + [sep] + Join(parts[i..], sep)
    decreases |parts|
  {
    var n := |parts|;
    if i == n - 1 {
      assert parts[i..] == [parts[n - 1]];
      assert parts[..n - 1] == parts[..i];
    } else {
      var init := parts[..n - 1];
      JoinPrefix(init, sep, i);
      assert init[..i] == parts[..i];
      assert init[i..] == parts[i..n - 1];
      assert parts[i..][..|parts[i..]| - 1] == parts[i..n - 1];
    }
  }
}
