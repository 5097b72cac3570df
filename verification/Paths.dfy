/** Path strings: splitting on a separator and joining again. The databases store a path now
    as a list of components, now as one string; this module says when the two are the same. */
module Paths {

  type Path = seq<string>

  predicate Free(s: string, sep: char) {
    sep !in s
  }

  predicate AllFree(parts: seq<string>, sep: char) {
    forall i :: 0 <= i < |parts| ==> Free(parts[i], sep)
  }

  /** Go's strings.Split with a one-character separator: never empty, and "" gives [""]. */
  function Split(s: string, sep: char): (parts: seq<string>)
    ensures |parts| >= 1 && AllFree(parts, sep)
  {
    if s == "" then [""]
    else
      var rest := Split(s[1..], sep);
      if s[0] == sep then [""] + rest
      else [[s[0]] + rest[0]] + rest[1..]
  }

  /** Go's strings.Join. */
  function Join(parts: seq<string>, sep: char): string {
    if |parts| == 0 then ""
    else if |parts| == 1 then parts[0]
    else parts[0] + [sep] + Join(parts[1..], sep)
  }

  lemma {:induction false} JoinOfSplit(s: string, sep: char)
    ensures Join(Split(s, sep), sep) == s
  {
    if s != "" {
      JoinOfSplit(s[1..], sep);
      var rest := Split(s[1..], sep);
      if s[0] == sep {
        assert ([""] + rest)[1..] == rest;
      } else {
        var parts := [[s[0]] + rest[0]] + rest[1..];
        assert parts[1..] == rest[1..];
        assert s == [s[0]] + s[1..];
      }
    }
  }

  lemma {:induction false} SplitFree(s: string, sep: char)
    requires Free(s, sep)
    ensures Split(s, sep) == [s]
  {
    if s != "" {
      SplitFree(s[1..], sep);
      assert s == [s[0]] + s[1..];
    }
  }

  lemma {:induction false} SplitPrefix(a: string, rest: string, sep: char)
    requires Free(a, sep)
    ensures Split(a + [sep] + rest, sep) == [a] + Split(rest, sep)
  {
    var s := a + [sep] + rest;
    if a == "" {
      assert s[1..] == rest;
    } else {
      assert s[1..] == a[1..] + [sep] + rest;
      SplitPrefix(a[1..], rest, sep);
      assert a == [a[0]] + a[1..];
      assert Split(s[1..], sep)[0] == a[1..];
      assert Split(s[1..], sep)[1..] == Split(rest, sep);
    }
  }

  lemma {:induction false} SplitSuffix(s: string, last: string, sep: char)
    requires Free(last, sep)
    ensures Split(s + [sep] + last, sep) == Split(s, sep) + [last]
  {
    var t := s + [sep] + last;
    if s == "" {
      assert t[1..] == last;
      SplitFree(last, sep);
    } else {
      assert t[1..] == s[1..] + [sep] + last;
      SplitSuffix(s[1..], last, sep);
      var rest := Split(s[1..], sep);
      assert (rest + [last])[0] == rest[0];
      assert (rest + [last])[1..] == rest[1..] + [last];
    }
  }

  lemma {:induction false} SplitOfJoin(parts: seq<string>, sep: char)
    requires |parts| >= 1 && AllFree(parts, sep)
    ensures Split(Join(parts, sep), sep) == parts
  {
    if |parts| == 1 {
      SplitFree(parts[0], sep);
    } else {
      SplitOfJoin(parts[1..], sep);
      SplitPrefix(parts[0], Join(parts[1..], sep), sep);
      assert parts == [parts[0]] + parts[1..];
    }
  }

  /** A list of components survives being stored as one string exactly when it is non-empty and
      no component contains the separator. */
  lemma RoundTripExactly(parts: seq<string>, sep: char)
    ensures Split(Join(parts, sep), sep) == parts <==> |parts| >= 1 && AllFree(parts, sep)
  {
    if |parts| >= 1 && AllFree(parts, sep) {
      SplitOfJoin(parts, sep);
    }
  }

  /** Splitting a string on the wrong separator gives the right list exactly when the string
      contains neither separator. */
  lemma SplitOnOther(s: string, a: char, b: char)
    requires a != b
    ensures Split(s, a) == Split(s, b) <==> Free(s, a) && Free(s, b)
  {
    if Free(s, a) && Free(s, b) {
      SplitFree(s, a);
      SplitFree(s, b);
    }
    if Split(s, a) == Split(s, b) {
      JoinOfSplit(s, a);
      JoinOfSplit(s, b);
      JoinFree(Split(s, a), b, a);
      JoinFree(Split(s, b), a, b);
    }
  }

  lemma {:induction false} JoinFree(parts: seq<string>, sep: char, other: char)
    requires sep != other && AllFree(parts, other)
    ensures Free(Join(parts, sep), other)
  {
    if |parts| > 1 {
      JoinFree(parts[1..], sep, other);
    }
  }

  // ---------------------------------------------------------------------------------------
  // Components that the master lets through, and directories as strings
  // ---------------------------------------------------------------------------------------

  /** What master.go checks of each component, together with what splitting on '/' gives. */
  predicate ValidName(n: string) {
    n != "" && n[0] != '.' && Free(n, '/')
  }

  predicate ValidNames(p: Path) {
    forall i :: 0 <= i < |p| ==> ValidName(p[i])
  }

  lemma OneMoreName(p: Path, i: nat)
    requires i < |p| && ValidNames(p[..i]) && ValidName(p[i])
    ensures ValidNames(p[..i + 1])
  {
  }

  /** A path as the databases' SetFile receives it: the user's name and at least one more. */
  predicate ValidPath(p: Path) {
    |p| >= 2 && ValidNames(p)
  }

  function DirName(p: Path): string {
    Join(p, '/')
  }

  function PathOf(dir: string): Path {
    if dir == "" then [] else Split(dir, '/')
  }

  /** The names that a directory string is made of are valid when they are not empty and not hidden. */
  lemma NamesSplitOff(dir: string)
    ensures ValidNames(PathOf(dir)) <==> forall n :: n in PathOf(dir) ==> n != "" && n[0] != '.'
  {
    var p := PathOf(dir);
    if forall n :: n in p ==> n != "" && n[0] != '.' {
      forall i | 0 <= i < |p| ensures ValidName(p[i]) {
        assert p[i] in p && Free(p[i], '/');
      }
    }
    if ValidNames(p) {
      forall n | n in p ensures n != "" && n[0] != '.' {
        var i :| 0 <= i < |p| && p[i] == n;
        assert ValidName(p[i]);
      }
    }
  }

  lemma DirNameOfPathOf(dir: string)
    ensures DirName(PathOf(dir)) == dir
  {
    JoinOfSplit(dir, '/');
  }

  lemma PathOfDirName(p: Path)
    requires ValidNames(p)
    ensures PathOf(DirName(p)) == p
    ensures p != [] ==> DirName(p) != "" && Split(DirName(p), '/') == p
  {
    if p != [] {
      SplitOfJoin(p, '/');
      assert ValidName(p[0]);
      assert DirName(p)[0] == p[0][0];
    }
  }

  function Init(p: Path): Path
    requires p != []
  {
    p[..|p| - 1]
  }

  function Last(p: Path): string
    requires p != []
  {
    p[|p| - 1]
  }

  /** The path of the entry called n in directory d. */
  function Child(d: Path, n: string): (r: Path)
    ensures r != [] && Init(r) == d && Last(r) == n
  {
    d + [n]
  }

  lemma IsChild(p: Path)
    requires p != []
    ensures Child(Init(p), Last(p)) == p
  {
  }

  lemma PrefixIsChild(p: Path, i: nat)
    requires i < |p|
    ensures p[..i + 1] == Child(p[..i], p[i])
  {
  }

  /** d < p, read along the path: the child of d that leads to p. */
  lemma NextStep(d: Path, p: Path)
    requires d < p
    ensures Child(d, p[|d|]) <= p
  {
  }
}
