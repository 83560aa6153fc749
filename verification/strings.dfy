/**
 * Character-level operations on strings that the path helpers are built from:
 * stripping a run of one character from either end (what the anchored regular
 * expressions of the path helpers do), `String.prototype.split` and
 * `Array.prototype.join` with a one-character separator, and the `<` order on
 * strings.
 */
module Strings {

  /** Every character of `s` is `c`. */
  predicate AllChar(s: string, c: char) {
    forall i :: 0 <= i < |s| ==> s[i] == c
  }

  /** `s` does not start with `c`. */
  predicate NoLeading(s: string, c: char) {
    s == [] || s[0] != c
  }

  /** `s` does not end with `c`. */
  predicate NoTrailing(s: string, c: char) {
    s == [] || s[|s| - 1] != c
  }

  /** `r` is what is left of `s` once its maximal leading run of `c` is removed. */
  predicate IsLeadingStrip(s: string, r: string, c: char) {
    |r| <= |s| && s == s[..|s| - |r|] + r && AllChar(s[..|s| - |r|], c) && NoLeading(r, c)
  }

  /** `r` is what is left of `s` once its maximal trailing run of `c` is removed. */
  predicate IsTrailingStrip(s: string, r: string, c: char) {
    |r| <= |s| && s == r + s[|r|..] && AllChar(s[|r|..], c) && NoTrailing(r, c)
  }

  /** Removes the maximal leading run of `c`: what replacing the anchored pattern `^c*` by nothing yields. */
  function StripLeading(s: string, c: char): (r: string)
    ensures IsLeadingStrip(s, r, c)
  {
    if |s| > 0 && s[0] == c then
      var r := StripLeading(s[1..], c);
      assert s[..|s| - |r|] == [c] + s[1..][..|s[1..]| - |r|];
      r
    else
      s
  }

  /** Removes the maximal trailing run of `c`: what replacing the anchored pattern `c*$` by nothing yields. */
  function StripTrailing(s: string, c: char): (r: string)
    ensures IsTrailingStrip(s, r, c)
  {
    if |s| > 0 && s[|s| - 1] == c then
      var r := StripTrailing(s[..|s| - 1], c);
      assert s[|r|..] == s[..|s| - 1][|r|..] + [c];
      r
    else
      s
  }

  /** The maximal leading run is unique: the two characterisations agree. */
  lemma LeadingStripUnique(s: string, r1: string, r2: string, c: char)
    requires IsLeadingStrip(s, r1, c) && IsLeadingStrip(s, r2, c)
    ensures r1 == r2
  {
  }

  /** The maximal trailing run is unique: the two characterisations agree. */
  lemma TrailingStripUnique(s: string, r1: string, r2: string, c: char)
    requires IsTrailingStrip(s, r1, c) && IsTrailingStrip(s, r2, c)
    ensures r1 == r2
  {
  }

  /** A string without a leading `c` is left alone: stripping is idempotent. */
  lemma {:induction false} StripLeadingIdempotent(s: string, c: char)
    ensures StripLeading(StripLeading(s, c), c) == StripLeading(s, c)
  {
    if |s| > 0 && s[0] == c {
      StripLeadingIdempotent(s[1..], c);
    }
  }

  lemma {:induction false} StripTrailingIdempotent(s: string, c: char)
    ensures StripTrailing(StripTrailing(s, c), c) == StripTrailing(s, c)
  {
    if |s| > 0 && s[|s| - 1] == c {
      StripTrailingIdempotent(s[..|s| - 1], c);
    }
  }

  /** A string that does not start with `c` is its own leading strip. */
  lemma StripLeadingNone(s: string, c: char)
    requires NoLeading(s, c)
    ensures StripLeading(s, c) == s
  {
  }

  /** A string that does not end with `c` is its own trailing strip. */
  lemma StripTrailingNone(s: string, c: char)
    requires NoTrailing(s, c)
    ensures StripTrailing(s, c) == s
  {
  }

  /** A leading `c` is part of the stripped run. */
  lemma StripLeadingCons(c: char, s: string)
    ensures StripLeading([c] + s, c) == StripLeading(s, c)
  {
    assert ([c] + s)[1..] == s;
  }

  /** Stripping a leading run keeps a string's last character, so it keeps a missing trailing `d`. */
  lemma {:induction false} StripLeadingKeepsNoTrailing(s: string, c: char, d: char)
    requires NoTrailing(s, d)
    ensures NoTrailing(StripLeading(s, c), d)
  {
    if |s| > 0 && s[0] == c {
      StripLeadingKeepsNoTrailing(s[1..], c, d);
    }
  }

  /**
   * `s.split(sep)`: the pieces between separators, in order. There is always at
   * least one piece (`''.split('/')` is `['']`) and no piece holds `sep`.
   */
  function Split(s: string, sep: char): (parts: seq<string>)
    ensures |parts| >= 1
    ensures forall p :: p in parts ==> sep !in p
  {
    if s == [] then [[]]
    else
      var rest := Split(s[1..], sep);
      if s[0] == sep then [[]] + rest
      else [[s[0]] + rest[0]] + rest[1..]
  }

  /**
   * `parts.join(sep)`; the empty list joins to the empty string. The first
   * piece starts the result.
   */
  function Join(parts: seq<string>, sep: char): (r: string)
    ensures |parts| >= 1 ==> parts[0] <= r
  {
    if |parts| == 0 then []
    else if |parts| == 1 then parts[0]
    else parts[0] + [sep] + Join(parts[1..], sep)
  }

  /** Joining the pieces of a split gives back the string. */
  lemma {:induction false} JoinSplit(s: string, sep: char)
    ensures Join(Split(s, sep), sep) == s
  {
    if s != [] {
      JoinSplit(s[1..], sep);
      JoinSplitStep(s, sep);
    }
  }

  /** One step of `JoinSplit`: the first character goes in front of the join of the rest. */
  lemma JoinSplitStep(s: string, sep: char)
    requires s != [] && Join(Split(s[1..], sep), sep) == s[1..]
    ensures Join(Split(s, sep), sep) == s
  {
    var rest := Split(s[1..], sep);
    var parts := Split(s, sep);
    assert s == [s[0]] + s[1..];
    if s[0] == sep {
      assert parts == [[]] + rest && parts[1..] == rest;
      assert Join(parts, sep) == [sep] + Join(rest, sep);
    } else if |rest| > 1 {
      assert parts[1..] == rest[1..];
      calc {
        Join(parts, sep);
        parts[0] + [sep] + Join(rest[1..], sep);
        [s[0]] + (rest[0] + [sep] + Join(rest[1..], sep));
        [s[0]] + Join(rest, sep);
      }
    }
  }

  /** A string without the separator splits into itself. */
  lemma {:induction false} SplitNoSep(s: string, sep: char)
    requires sep !in s
    ensures Split(s, sep) == [s]
  {
    if s != [] {
      assert s[0] != sep && sep !in s[1..];
      SplitNoSep(s[1..], sep);
      assert s == [s[0]] + s[1..];
    }
  }

  /** Splitting `a + sep + b` where `a` has no separator. */
  lemma {:induction false} SplitCons(a: string, b: string, sep: char)
    requires sep !in a
    ensures Split(a + [sep] + b, sep) == [a] + Split(b, sep)
  {
    var s := a + [sep] + b;
    if a == [] {
      assert s[1..] == b;
    } else {
      assert s[1..] == a[1..] + [sep] + b;
      assert s[0] == a[0] && sep !in a[1..];
      SplitCons(a[1..], b, sep);
      assert a == [a[0]] + a[1..];
    }
  }

  /** Splitting a join of separator-free pieces gives back the pieces. */
  lemma {:induction false} SplitJoin(parts: seq<string>, sep: char)
    requires |parts| >= 1
    requires forall p :: p in parts ==> sep !in p
    ensures Split(Join(parts, sep), sep) == parts
  {
    if |parts| == 1 {
      SplitNoSep(parts[0], sep);
    } else {
      SplitJoin(parts[1..], sep);
      SplitCons(parts[0], Join(parts[1..], sep), sep);
    }
  }

  /** Joining peels off the last piece. */
  lemma {:induction false} JoinSnoc(parts: seq<string>, sep: char)
    requires |parts| >= 2
    ensures Join(parts, sep) == Join(parts[..|parts| - 1], sep) + [sep] + parts[|parts| - 1]
  {
    if |parts| > 2 {
      JoinSnoc(parts[1..], sep);
      assert parts[1..][..|parts| - 2] == parts[..|parts| - 1][1..];
    }
  }

  /** The join of one or more pieces holds the separator exactly when there are two or more. */
  lemma {:induction false} JoinHasSep(parts: seq<string>, sep: char)
    requires |parts| >= 1
    requires forall p :: p in parts ==> sep !in p
    ensures sep in Join(parts, sep) <==> |parts| >= 2
  {
    if |parts| >= 2 {
      var a := Join(parts[..|parts| - 1], sep);
      JoinSnoc(parts, sep);
      assert Join(parts, sep)[|a|] == sep;
    }
  }

  /** Splitting `a + sep + b` where `b` has no separator. */
  lemma {:induction false} SplitSnoc(a: string, b: string, sep: char)
    requires sep !in b
    ensures Split(a + [sep] + b, sep) == Split(a, sep) + [b]
  {
    var s := a + [sep] + b;
    if a == [] {
      assert s[1..] == b;
      SplitNoSep(b, sep);
    } else {
      assert s[1..] == a[1..] + [sep] + b;
      SplitSnoc(a[1..], b, sep);
    }
  }

  /** A join of pieces that starts with a non-empty piece is non-empty. */
  lemma JoinNonEmpty(parts: seq<string>, sep: char)
    requires |parts| >= 1 && parts[0] != []
    ensures Join(parts, sep) != []
  {
  }

  /** Two prefixes of one string are prefixes of each other, one way or the other. */
  lemma PrefixesComparable(a: string, b: string, c: string)
    requires a <= c && b <= c
    ensures a <= b || b <= a
  {
    if |a| <= |b| {
      assert a == c[..|a|] && b == c[..|b|];
      assert a == b[..|a|];
    } else {
      assert a == c[..|a|] && b == c[..|b|];
      assert b == a[..|b|];
    }
  }

  lemma PrefixTransitive(a: string, b: string, c: string)
    requires a <= b && b <= c
    ensures a <= c
  {
    assert b == c[..|b|];
    assert a == b[..|a|] == c[..|a|];
  }

  /** `a < b` on JavaScript strings: lexicographic by character, a proper prefix first. */
  predicate LexLess(a: string, b: string): (r: bool)
    ensures a < b ==> r
    ensures b <= a ==> !r
    decreases |a|
  {
    if |a| == 0 then |b| > 0
    else if |b| == 0 then false
    else if a[0] != b[0] then a[0] < b[0]
    else LexLess(a[1..], b[1..])
  }

  lemma {:induction false} LexLessIrreflexive(a: string)
    ensures !LexLess(a, a)
  {
    if |a| > 0 {
      LexLessIrreflexive(a[1..]);
    }
  }

  lemma {:induction false} LexLessTransitive(a: string, b: string, c: string)
    requires LexLess(a, b) && LexLess(b, c)
    ensures LexLess(a, c)
  {
    if |a| > 0 && |b| > 0 && |c| > 0 && a[0] == b[0] && b[0] == c[0] {
      LexLessTransitive(a[1..], b[1..], c[1..]);
    }
  }

  lemma {:induction false} LexLessTotal(a: string, b: string)
    requires a != b
    ensures LexLess(a, b) || LexLess(b, a)
  {
    if |a| > 0 && |b| > 0 && a[0] == b[0] {
      assert a == [a[0]] + a[1..] && b == [b[0]] + b[1..];
      LexLessTotal(a[1..], b[1..]);
    }
  }

  lemma {:induction false} LexLessAsymmetric(a: string, b: string)
    requires LexLess(a, b)
    ensures !LexLess(b, a)
  {
    if |a| > 0 && |b| > 0 && a[0] == b[0] {
      LexLessAsymmetric(a[1..], b[1..]);
    }
  }
}
