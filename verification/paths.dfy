/**
 * The path helpers: trimming slashes and leading directory characters,
 * splitting a file path into directory and file name, listing every
 * ancestor of a set of paths, and summarising a list of paths to its
 * maximal members.
 *
 * A `string | undefined | null` parameter is an `Option<string>` whose
 * `None` stands for `null` and `undefined`; the helpers treat it like the
 * empty string, which JavaScript also finds falsy.
 */
module PathUtils {
  import opened Optional
  import opened Strings

  /** The string a path parameter holds, with `null` and `undefined` read as `''`. */
  function Text(path: Option<string>): string {
    match path
    case None => []
    case Some(s) => s
  }

  /** `removeStartSlash`: the path without its leading slashes. */
  function RemoveStartSlash(path: Option<string>): (r: string)
    ensures IsLeadingStrip(Text(path), r, '/')
  {
    if Text(path) == [] then [] else StripLeading(Text(path), '/')
  }

  /** `removeEndSlash`: the path without its trailing slashes. */
  function RemoveEndSlash(path: Option<string>): (r: string)
    ensures IsTrailingStrip(Text(path), r, '/')
  {
    if Text(path) == [] then [] else StripTrailing(Text(path), '/')
  }

  /**
   * `removeBothEndsSlash`: the path without the slashes at either end; what
   * is left is a contiguous middle piece of the path.
   */
  function RemoveBothEndsSlash(path: Option<string>): (r: string)
    ensures NoLeading(r, '/') && NoTrailing(r, '/')
    ensures exists i :: IsMiddle(Text(path), r, i)
  {
    var s := Text(path);
    if s == [] then
      assert IsMiddle(s, [], 0);
      []
    else
      var m := RemoveEndSlash(path);
      var r := RemoveStartSlash(Some(m));
      StripLeadingKeepsNoTrailing(m, '/', '/');
      StripsLeaveMiddle(s, m, r);
      r
  }

  /** Stripping the trailing and then the leading slashes leaves a middle piece. */
  lemma StripsLeaveMiddle(s: string, m: string, r: string)
    requires IsTrailingStrip(s, m, '/') && IsLeadingStrip(m, r, '/')
    ensures IsMiddle(s, r, |m| - |r|)
  {
    var i := |m| - |r|;
    assert s[i..i + |r|] == m[i..] == r;
    assert s[..i] == m[..i];
    assert s[i + |r|..] == s[|m|..];
  }

  /** `r` sits at offset `i` of `s` with nothing but slashes before and after it. */
  predicate IsMiddle(s: string, r: string, i: int) {
    0 <= i <= |s| - |r| && s[i..i + |r|] == r && AllChar(s[..i], '/') && AllChar(s[i + |r|..], '/')
  }

  /** Trimming leading slashes a second time changes nothing. */
  lemma RemoveStartSlashIdempotent(path: Option<string>)
    ensures RemoveStartSlash(Some(RemoveStartSlash(path))) == RemoveStartSlash(path)
  {
    StripLeadingIdempotent(Text(path), '/');
  }

  /** Trimming trailing slashes a second time changes nothing. */
  lemma RemoveEndSlashIdempotent(path: Option<string>)
    ensures RemoveEndSlash(Some(RemoveEndSlash(path))) == RemoveEndSlash(path)
  {
    StripTrailingIdempotent(Text(path), '/');
  }

  /** Trimming both ends a second time changes nothing. */
  lemma RemoveBothEndsSlashIdempotent(path: Option<string>)
    ensures RemoveBothEndsSlash(Some(RemoveBothEndsSlash(path))) == RemoveBothEndsSlash(path)
  {
    var r := RemoveBothEndsSlash(path);
    if r != [] {
      StripTrailingNone(r, '/');
      StripLeadingNone(r, '/');
    }
  }

  /**
   * `r` is `s` after its leading dots `s[..i]` and the slashes `s[i..j]` that
   * follow them; both runs are maximal.
   */
  predicate IsDirCharsStrip(s: string, r: string, i: int, j: int) {
    0 <= i <= j <= |s| && r == s[j..] && AllChar(s[..i], '.') && AllChar(s[i..j], '/') &&
    NoLeading(r, '/') && (i == j ==> NoLeading(r, '.'))
  }

  lemma DirCharsStrip(s: string, t: string, r: string)
    requires IsLeadingStrip(s, t, '.') && IsLeadingStrip(t, r, '/')
    ensures IsDirCharsStrip(s, r, |s| - |t|, |s| - |r|)
  {
    var i, j := |s| - |t|, |s| - |r|;
    assert s[i..] == t;
    assert t[|t| - |r|..] == r;
    assert s[j..] == r;
    assert s[i..j] == t[..|t| - |r|];
    if i == j {
      assert t == r;
    }
  }

  /**
   * `removeStartDirChars`: the path without its leading run of `.` followed
   * by its leading run of `/`, so `'./aaa'`, `'../aaa'` and `'/aaa'` all
   * become `'aaa'`.
   */
  function RemoveStartDirChars(path: Option<string>): (r: string)
    ensures exists i, j :: IsDirCharsStrip(Text(path), r, i, j)
  {
    var s := Text(path);
    if s == [] then
      assert IsDirCharsStrip(s, [], 0, 0);
      []
    else
      var t := StripLeading(s, '.');
      var r := StripLeading(t, '/');
      DirCharsStrip(s, t, r);
      r
  }

  lemma RemoveStartDirCharsExamples()
    ensures RemoveStartDirChars(Some("./aaa")) == "aaa"
    ensures RemoveStartDirChars(Some("../aaa")) == "aaa"
    ensures RemoveStartDirChars(Some("/aaa")) == "aaa"
    ensures RemoveStartDirChars(None) == ""
  {
    assert "/aaa" == ['/'] + "aaa" && "./aaa" == ['.'] + "/aaa" && "../aaa" == ['.'] + "./aaa";
    StripLeadingCons('/', "aaa");
    StripLeadingNone("aaa", '/');
    StripLeadingCons('.', "/aaa");
    StripLeadingNone("/aaa", '.');
    StripLeadingCons('.', "./aaa");
  }


  /** The two halves of a file path. */
  datatype FilePathParts = FilePathParts(fileName: string, dirPath: string)

  /** `splitFilePath`: the text after the last `/` and the text before it. */
  function SplitFilePath(filePath: string): (r: FilePathParts)
    ensures '/' !in r.fileName
  {
    var segments := Split(filePath, '/');
    var fileName := segments[|segments| - 1];
    var dirPath := if |segments| >= 2 then Join(segments[..|segments| - 1], '/') else [];
    FilePathParts(fileName, dirPath)
  }

  /**
   * The file name never holds a slash; a path with a slash is its directory,
   * a slash and its file name, and a path without one is all file name.
   */
  lemma SplitFilePathJoins(filePath: string)
    ensures '/' !in SplitFilePath(filePath).fileName
    ensures '/' in filePath ==>
              filePath == SplitFilePath(filePath).dirPath + "/" + SplitFilePath(filePath).fileName
    ensures '/' !in filePath ==> SplitFilePath(filePath) == FilePathParts(filePath, "")
  {
    var segments := Split(filePath, '/');
    JoinSplit(filePath, '/');
    JoinHasSep(segments, '/');
    if |segments| >= 2 {
      JoinSnoc(segments, '/');
    }
  }

  /** Conversely, a directory, a slash and a slash-free name split back into the two. */
  lemma SplitFilePathOfJoin(dirPath: string, fileName: string)
    requires '/' !in fileName
    ensures SplitFilePath(dirPath + "/" + fileName) == FilePathParts(fileName, dirPath)
  {
    SplitSnoc(dirPath, fileName, '/');
    var segments := Split(dirPath + "/" + fileName, '/');
    assert segments[..|segments| - 1] == Split(dirPath, '/');
    JoinSplit(dirPath, '/');
  }

  /** `r` is `s` with some of its elements left out, the rest in their order. */
  predicate Subsequence<T(==)>(r: seq<T>, s: seq<T>)
    decreases |s|
  {
    if r == [] then true
    else if s == [] then false
    else if r[0] == s[0] then Subsequence(r[1..], s[1..])
    else Subsequence(r, s[1..])
  }

  /** The pieces of a split that are not empty (the `filter(item => !!item)` step). */
  function NonEmptyParts(parts: seq<string>): (r: seq<string>)
    ensures forall p :: p in r ==> p != [] && p in parts
    ensures forall p :: p in parts && p != [] ==> p in r
    ensures (forall i :: 0 <= i < |parts| ==> parts[i] != []) ==> r == parts
  {
    if parts == [] then []
    else if parts[0] == [] then NonEmptyParts(parts[1..])
    else [parts[0]] + NonEmptyParts(parts[1..])
  }

  /**
   * The filter keeps every non-empty piece as often as it occurs and drops
   * every empty one, and keeps the pieces in their order.
   */
  lemma {:induction false} NonEmptyPartsExact(parts: seq<string>)
    ensures multiset(NonEmptyParts(parts)) == multiset(parts)[[] := 0]
    ensures Subsequence(NonEmptyParts(parts), parts)
  {
    if parts != [] {
      NonEmptyPartsExact(parts[1..]);
      assert parts == [parts[0]] + parts[1..];
      var rest := NonEmptyParts(parts[1..]);
      if parts[0] == [] && rest != [] {
        assert rest[0] in rest;
      }
    }
  }

  /** The non-empty `/`-separated segments of a path. */
  function Segments(path: string): (r: seq<string>)
    ensures forall p :: p in r ==> p != [] && '/' !in p
  {
    NonEmptyParts(Split(path, '/'))
  }

  /**
   * The segments of a path are exactly the non-empty pieces of
   * `path.split('/')`, as often as they occur there and in the same order.
   */
  lemma SegmentsOfSplit(path: string)
    ensures forall p :: p in Split(path, '/') && p != [] ==> p in Segments(path)
    ensures multiset(Segments(path)) == multiset(Split(path, '/'))[[] := 0]
    ensures Subsequence(Segments(path), Split(path, '/'))
  {
    NonEmptyPartsExact(Split(path, '/'));
  }

  /** Every ancestor of a path, itself included: the first one, two, ... segments joined. */
  ghost function Ancestors(path: string): set<string> {
    set k | 1 <= k <= |Segments(path)| :: Join(Segments(path)[..k], '/')
  }

  /** What `splitHierarchicalPaths` collects from its arguments; null and empty ones are skipped. */
  ghost function Hierarchy(paths: seq<Option<string>>): set<string> {
    if paths == [] then {}
    else Hierarchy(paths[..|paths| - 1]) + Ancestors(Text(paths[|paths| - 1]))
  }

  lemma {:induction false} InHierarchy(paths: seq<Option<string>>, x: string)
    requires x in Hierarchy(paths)
    ensures exists n :: 0 <= n < |paths| && x in Ancestors(Text(paths[n]))
  {
    if x !in Ancestors(Text(paths[|paths| - 1])) {
      InHierarchy(paths[..|paths| - 1], x);
      var n :| 0 <= n < |paths| - 1 && x in Ancestors(Text(paths[..|paths| - 1][n]));
      assert paths[..|paths| - 1][n] == paths[n];
    }
  }

  lemma {:induction false} HierarchyHas(paths: seq<Option<string>>, n: nat, x: string)
    requires n < |paths| && x in Ancestors(Text(paths[n]))
    ensures x in Hierarchy(paths)
  {
    if n < |paths| - 1 {
      assert paths[..|paths| - 1][n] == paths[n];
      HierarchyHas(paths[..|paths| - 1], n, x);
    }
  }

  /**
   * `splitHierarchicalPaths`: every ancestor of every given path, each once,
   * in ascending string order.
   */
  method SplitHierarchicalPaths(paths: seq<Option<string>>) returns (r: seq<string>)
    ensures forall x :: x in r <==> x in Hierarchy(paths)
    ensures forall i, j :: 0 <= i < j < |r| ==> LexLess(r[i], r[j])
  {
    var found: set<string> := {};
    for n := 0 to |paths|
      invariant found == Hierarchy(paths[..n])
    {
      assert paths[..n + 1][..n] == paths[..n];
      if paths[n].Some? && paths[n].value != [] {
        found := AddAncestors(found, paths[n].value);
      }
    }
    assert paths[..|paths|] == paths;
    r := SortStrings(found);
  }

  /** The inner loop of `splitHierarchicalPaths`: adds the ancestors of one path. */
  method AddAncestors(found: set<string>, path: string) returns (r: set<string>)
    ensures r == found + Ancestors(path)
  {
    r := found;
    var segments := Segments(path);
    for i := 0 to |segments|
      invariant r == found + set k | 1 <= k <= i :: Join(segments[..k], '/')
    {
      r := r + {Join(segments[..i + 1], '/')};
    }
  }

  /** `Array.from(set).sort(...)` with the comparator of `<`: the set's members in ascending order. */
  method SortStrings(s: set<string>) returns (r: seq<string>)
    ensures forall x :: x in r <==> x in s
    ensures forall i, j :: 0 <= i < j < |r| ==> LexLess(r[i], r[j])
  {
    r := [];
    var rest := s;
    while rest != {}
      invariant rest <= s
      invariant forall x :: x in r <==> x in s && x !in rest
      invariant forall i, j :: 0 <= i < j < |r| ==> LexLess(r[i], r[j])
      decreases |rest|
    {
      var x :| x in rest;
      var j := 0;
      while j < |r| && LexLess(r[j], x)
        invariant 0 <= j <= |r|
        invariant forall k :: 0 <= k < j ==> LexLess(r[k], x)
      {
        j := j + 1;
      }
      forall k | j <= k < |r|
        ensures LexLess(x, r[k])
      {
        LexLessTotal(r[j], x);
        if k > j {
          LexLessTransitive(x, r[j], r[k]);
        }
      }
      r := r[..j] + [x] + r[j..];
      rest := rest - {x};
    }
  }

  /** Every listed path is a non-empty path without empty segments, so no slash at either end and no `//`. */
  lemma HierarchyIsNormalised(paths: seq<Option<string>>, x: string)
    requires x in Hierarchy(paths)
    ensures x != [] && [] !in Split(x, '/')
  {
    InHierarchy(paths, x);
    var n :| 0 <= n < |paths| && x in Ancestors(Text(paths[n]));
    var segments := Segments(Text(paths[n]));
    var k :| 1 <= k <= |segments| && x == Join(segments[..k], '/');
    assert segments[0] in segments;
    JoinNonEmpty(segments[..k], '/');
    SplitJoin(segments[..k], '/');
  }

  /** A given path that has no empty segment is itself listed. */
  lemma HierarchyHasInputs(paths: seq<Option<string>>, n: nat)
    requires n < |paths| && paths[n].Some? && paths[n].value != []
    requires [] !in Split(paths[n].value, '/')
    ensures paths[n].value in Hierarchy(paths)
  {
    var p := paths[n].value;
    var segments := Segments(p);
    assert segments == Split(p, '/');
    JoinSplit(p, '/');
    assert segments[..|segments|] == segments;
    HierarchyHas(paths, n, p);
  }

  /** The directory of the first `k` segments joined is the first `k - 1` joined. */
  lemma ParentOfJoin(segments: seq<string>, k: nat)
    requires 1 <= k <= |segments| && forall p :: p in segments ==> '/' !in p
    ensures SplitFilePath(Join(segments[..k], '/')).dirPath ==
            if k == 1 then [] else Join(segments[..k - 1], '/')
  {
    var x := Join(segments[..k], '/');
    if k == 1 {
      assert x == segments[0] && segments[0] in segments;
      SplitFilePathJoins(x);
    } else {
      assert segments[k - 1] in segments;
      JoinSnoc(segments[..k], '/');
      assert segments[..k][..k - 1] == segments[..k - 1];
      SplitFilePathOfJoin(Join(segments[..k - 1], '/'), segments[k - 1]);
    }
  }

  /** The listing is closed under parents: the directory of a listed path is listed too. */
  lemma HierarchyHasParents(paths: seq<Option<string>>, x: string)
    requires x in Hierarchy(paths)
    ensures SplitFilePath(x).dirPath == [] || SplitFilePath(x).dirPath in Hierarchy(paths)
  {
    InHierarchy(paths, x);
    var n :| 0 <= n < |paths| && x in Ancestors(Text(paths[n]));
    var segments := Segments(Text(paths[n]));
    var k :| 1 <= k <= |segments| && x == Join(segments[..k], '/');
    ParentOfJoin(segments, k);
    if k > 1 {
      HierarchyHas(paths, n, Join(segments[..k - 1], '/'));
    }
  }

  /**
   * The ascending listing is in hierarchy order: the directory of a listed
   * path is listed before it.
   */
  lemma HierarchyOrdered(paths: seq<Option<string>>, r: seq<string>, j: int)
    requires forall x :: x in r <==> x in Hierarchy(paths)
    requires forall i, j :: 0 <= i < j < |r| ==> LexLess(r[i], r[j])
    requires 0 <= j < |r| && SplitFilePath(r[j]).dirPath != []
    ensures exists i :: 0 <= i < j && r[i] == SplitFilePath(r[j]).dirPath
  {
    var x := r[j];
    var d := SplitFilePath(x).dirPath;
    assert x in r;
    HierarchyHasParents(paths, x);
    SplitFilePathJoins(x);
    assert x[..|d|] == d;
    assert LexLess(d, x);
    var i :| 0 <= i < |r| && r[i] == d;
    if i > j {
      LexLessAsymmetric(d, x);
    }
    if i == j {
      LexLessIrreflexive(d);
    }
  }

  /** Some member of `a` extends `p` (or is `p`). */
  predicate Extended(p: string, a: seq<string>) {
    exists e :: e in a && p <= e
  }

  /** Extension is transitive across two lists. */
  lemma ExtendedTransitive(p: string, a: seq<string>, b: seq<string>)
    requires Extended(p, a) && forall q :: q in a ==> Extended(q, b)
    ensures Extended(p, b)
  {
    var e :| e in a && p <= e;
    var e' :| e' in b && e <= e';
    PrefixTransitive(p, e, e');
  }

  /** No member of `a` is a prefix of another member of `a`. */
  predicate NoFamily(a: seq<string>) {
    forall i, j :: 0 <= i < |a| && 0 <= j < |a| && i != j ==> !(a[i] <= a[j])
  }

  /**
   * `pushMaxPathToArray`: scans the list for the first entry that extends
   * `newPath` (nothing changes) or that `newPath` extends (that entry becomes
   * `newPath`); when there is neither, `newPath` is appended.
   */
  method PushMaxPath(entries: seq<string>, newPath: string) returns (r: seq<string>)
    ensures r == entries + [newPath] <==> forall e :: e in entries ==> !(newPath <= e) && !(e <= newPath)
    ensures r != entries + [newPath] ==>
              |r| == |entries| && forall k :: 0 <= k < |r| && r[k] != entries[k] ==> entries[k] < newPath == r[k]
    ensures Extended(newPath, r)
    ensures forall p :: p in entries ==> Extended(p, r)
    ensures forall e :: e in r ==> e in entries || e == newPath
    ensures r == entries || r == entries + [newPath] ||
            exists i :: 0 <= i < |entries| && entries[i] < newPath && r == entries[i := newPath]
    ensures NoFamily(entries) ==> NoFamily(r)
  {
    for i := 0 to |entries|
      invariant forall k :: 0 <= k < i ==> !(newPath <= entries[k]) && !(entries[k] <= newPath)
    {
      var path := entries[i];
      if newPath <= path {
        r := entries;
        assert entries[i] in entries && newPath <= entries[i];
        assert |r| != |entries + [newPath]|;
        return;
      } else if path <= newPath {
        r := entries[i := newPath];
        assert |r| != |entries + [newPath]|;
        assert entries[i] in entries && entries[i] <= newPath;
        assert r[i] in r && r[i] == newPath;
        forall p | p in entries
          ensures Extended(p, r)
        {
          var k :| 0 <= k < |entries| && entries[k] == p;
          assert r[k] in r;
        }
        if NoFamily(entries) {
          forall j | 0 <= j < |r| && j != i
            ensures !(r[j] <= newPath) && !(newPath <= r[j])
          {
            if j > i {
              if newPath <= r[j] {
                PrefixTransitive(entries[i], newPath, entries[j]);
              }
              if r[j] <= newPath {
                PrefixesComparable(entries[i], entries[j], newPath);
              }
            }
          }
        }
        return;
      }
    }
    r := entries + [newPath];
    assert r[|entries|] in r && r[|entries|] == newPath;
    forall p | p in entries
      ensures Extended(p, r)
    {
      var k :| 0 <= k < |entries| && entries[k] == p;
      assert r[k] in r;
    }
  }

  /**
   * `summarizeFamilyPaths`: keeps only the paths no other path extends. The
   * result holds no two related paths, covers every given path with an
   * extension of it, is drawn from the given paths and is never longer.
   */
  method SummarizeFamilyPaths(paths: seq<string>) returns (r: seq<string>)
    ensures NoFamily(r)
    ensures forall p :: p in paths ==> Extended(p, r)
    ensures forall e :: e in r ==> e in paths
    ensures |r| <= |paths|
  {
    r := [];
    for n := 0 to |paths|
      invariant NoFamily(r)
      invariant forall k :: 0 <= k < n ==> Extended(paths[k], r)
      invariant forall e :: e in r ==> e in paths
      invariant |r| <= n
    {
      var before := r;
      r := PushMaxPath(r, paths[n]);
      forall k | 0 <= k < n
        ensures Extended(paths[k], r)
      {
        ExtendedTransitive(paths[k], before, r);
      }
    }
    forall p | p in paths
      ensures Extended(p, r)
    {
      var k :| 0 <= k < |paths| && paths[k] == p;
    }
  }
}
