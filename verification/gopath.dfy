/**
 * The slash-separated name functions of Go's `strings` and `path` packages that the
 * archive adapter relies on: TrimPrefix/TrimSuffix/HasSuffix, path.Clean, path.Dir,
 * path.Base and two-element path.Join.
 *
 * path.Clean is given by its documented rules rather than by its byte-level loop:
 * split the name at every '/', drop empty and "." elements, let ".." cancel the
 * preceding element (at the root it is dropped, in a relative name that has nothing
 * left to cancel it is kept), join what is left with '/', put back a leading '/'
 * for a rooted name, and return "." for an empty relative result.
 *
 * Sequences of name elements are taken apart from the END (Split, Join and Lex all
 * recurse on the prefix), which is the direction in which path.Dir and path.Base
 * work and in which an archive member's ancestors are walked.
 */
module GoPath {

  // ---------------------------------------------------------------------------
  // strings
  // ---------------------------------------------------------------------------

  predicate HasPrefix(s: string, prefix: string) {
    |prefix| <= |s| && s[..|prefix|] == prefix
  }

  predicate HasSuffix(s: string, suffix: string) {
    |suffix| <= |s| && s[|s| - |suffix|..] == suffix
  }

  /** strings.TrimPrefix: drops `prefix` once when `s` starts with it. */
  function TrimPrefix(s: string, prefix: string): string
  {
    if HasPrefix(s, prefix) then s[|prefix|..] else s
  }

  /** strings.TrimSuffix: drops `suffix` once when `s` ends with it. */
  function TrimSuffix(s: string, suffix: string): string
  {
    if HasSuffix(s, suffix) then s[..|s| - |suffix|] else s
  }

  /** TrimPrefix removes exactly the prefix when present and nothing otherwise. */
  lemma TrimPrefixRemoves(s: string, prefix: string)
    ensures HasPrefix(s, prefix) ==> s == prefix + TrimPrefix(s, prefix)
    ensures !HasPrefix(s, prefix) ==> TrimPrefix(s, prefix) == s
  {
    if HasPrefix(s, prefix) {
      assert s == s[..|prefix|] + s[|prefix|..];
    }
  }

  /** Trimming "/" from a rooted name gives the rest back; it does not start with "./". */
  lemma TrimRootSlash(j: string)
    ensures HasPrefix("/" + j, "/") && TrimPrefix("/" + j, "/") == j
    ensures !HasPrefix("/" + j, "./")
  {
    assert ("/" + j)[0] == '/';
    assert ("/" + j)[..1] == "/";
    assert ("/" + j)[1..] == j;
  }

  /** A name that does not start with '/' is left alone by trimming "/". */
  lemma NoLeadingSlash(j: string)
    requires |j| >= 1 && j[0] != '/'
    ensures !HasPrefix(j, "/") && TrimPrefix(j, "/") == j
  {
    assert j[..1][0] == j[0];
  }

  /** TrimSuffix removes exactly the suffix when present and nothing otherwise. */
  lemma TrimSuffixRemoves(s: string, suffix: string)
    ensures HasSuffix(s, suffix) ==> s == TrimSuffix(s, suffix) + suffix
    ensures !HasSuffix(s, suffix) ==> TrimSuffix(s, suffix) == s
  {
    if HasSuffix(s, suffix) {
      assert s == s[..|s| - |suffix|] + s[|s| - |suffix|..];
    }
  }

  /** strings.Split(s, "/"): the elements between the slashes; never empty. */
  function Split(s: string): (parts: seq<string>)
    ensures |parts| >= 1
    decreases |s|
  {
    if s == [] then [""]
    else
      var init := Split(s[..|s| - 1]);
      var c := s[|s| - 1];
      if c == '/' then init + [""]
      else init[..|init| - 1] + [init[|init| - 1] + [c]]
  }

  /** strings.Join(parts, "/"). */
  function Join(parts: seq<string>): string
  {
    if |parts| == 0 then ""
    else if |parts| == 1 then parts[0]
    else Join(parts[..|parts| - 1]) + "/" + parts[|parts| - 1]
  }

  /** strings.LastIndex(s, "/"): the position of the last slash, or -1. */
  function LastSlash(s: string): (i: int)
    ensures -1 <= i < |s|
  {
    if s == [] then -1
    else if s[|s| - 1] == '/' then |s| - 1
    else LastSlash(s[..|s| - 1])
  }

  // ---------------------------------------------------------------------------
  // path.Clean
  // ---------------------------------------------------------------------------

  predicate Rooted(s: string) {
    |s| > 0 && s[0] == '/'
  }

  /** One element of path.Clean's scan applied to the elements kept so far. */
  function Step(kept: seq<string>, part: string, rooted: bool): seq<string>
  {
    if part == "" || part == "." then kept
    else if part == ".." then
      if |kept| > 0 && kept[|kept| - 1] != ".." then kept[..|kept| - 1]
      else if rooted then kept
      else kept + [".."]
    else kept + [part]
  }

  /** path.Clean's scan over all elements, left to right. */
  function Lex(parts: seq<string>, rooted: bool): seq<string>
  {
    if parts == [] then []
    else Step(Lex(parts[..|parts| - 1], rooted), parts[|parts| - 1], rooted)
  }

  /** The elements path.Clean keeps of `s`. */
  function Segments(s: string): seq<string>
  {
    Lex(Split(s), Rooted(s))
  }

  /** path.Clean. */
  function Clean(s: string): string
  {
    var segs := Segments(s);
    if Rooted(s) then "/" + Join(segs)
    else if segs == [] then "."
    else Join(segs)
  }

  /**
   * The shape of a cleaned element list: no empty, "." or slash-bearing element,
   * ".." only in a leading run, and no ".." at all under the root.
   */
  ghost predicate CleanSegments(segs: seq<string>, rooted: bool)
  {
    && (forall i :: 0 <= i < |segs| ==> segs[i] != "" && segs[i] != "." && '/' !in segs[i])
    && (forall i, j :: 0 <= i < j < |segs| && segs[j] == ".." ==> segs[i] == "..")
    && (rooted ==> forall i :: 0 <= i < |segs| ==> segs[i] != "..")
  }

  // ---------------------------------------------------------------------------
  // path.Dir, path.Base, path.Join
  // ---------------------------------------------------------------------------

  /** path.Dir: everything up to the last slash, cleaned. */
  function Dir(p: string): string
  {
    Clean(p[..LastSlash(p) + 1])
  }

  function StripTrailingSlashes(p: string): string
  {
    if |p| > 0 && p[|p| - 1] == '/' then StripTrailingSlashes(p[..|p| - 1]) else p
  }

  /** path.Base: the last element; "." for the empty name and "/" for a name of slashes. */
  function Base(p: string): string
  {
    if p == "" then "."
    else
      var q := StripTrailingSlashes(p);
      var r := q[LastSlash(q) + 1..];
      if r == "" then "/" else r
  }

  /** path.Join(a, b): the non-empty arguments joined by '/', then cleaned. */
  function JoinPath(a: string, b: string): string
  {
    if a == "" && b == "" then ""
    else if a == "" then Clean(b)
    else Clean(a + "/" + b)
  }

  // ---------------------------------------------------------------------------
  // Lemmas
  // ---------------------------------------------------------------------------

  /** No element strings.Split returns holds a slash. */
  lemma {:induction false} SplitParts(s: string)
    ensures forall i :: 0 <= i < |Split(s)| ==> '/' !in Split(s)[i]
    decreases |s|
  {
    if s != [] {
      var init := s[..|s| - 1];
      SplitParts(init);
      var p := Split(init);
      var c := s[|s| - 1];
      if c != '/' {
        assert '/' !in p[|p| - 1] + [c];
      }
    }
  }

  /** path.Base of the empty name and of "." is ".". */
  lemma BaseOfDot()
    ensures Base("") == "." && Base(".") == "."
  {
    assert StripTrailingSlashes(".") == ".";
    assert LastSlash(".") == -1 by {
      assert "."[..0] == "";
    }
    assert "."[0..] == ".";
  }

  /** path.Base gives one non-empty element: no slash in it, unless it is "/" itself. */
  lemma BaseIsElement(p: string)
    ensures Base(p) != ""
    ensures Base(p) == "/" || '/' !in Base(p)
  {
    if p != "" {
      var q := StripTrailingSlashes(p);
      var r := q[LastSlash(q) + 1..];
      LastSlashIsLast(q);
      forall k | 0 <= k < |r| ensures r[k] != '/' {
        assert r[k] == q[LastSlash(q) + 1 + k];
      }
    }
  }

  /**
   * A cleaned name without its leading '/' never starts with '/': path.Clean leaves
   * at most one leading slash.
   */
  lemma TrimmedCleanIsRelative(s: string)
    ensures !HasPrefix(TrimPrefix(Clean(s), "/"), "/")
  {
    var segs := Segments(s);
    SegmentsClean(s);
    if segs != [] {
      JoinShape(segs);
    }
    TrimPrefixRemoves(Clean(s), "/");
    if Rooted(s) {
      assert Clean(s) == "/" + Join(segs);
      assert HasPrefix(Clean(s), "/");
      assert TrimPrefix(Clean(s), "/") == Join(segs);
    }
  }

  /** LastSlash finds the last slash, and -1 means there is none. */
  lemma {:induction false} LastSlashIsLast(s: string)
    ensures LastSlash(s) >= 0 ==> s[LastSlash(s)] == '/'
    ensures forall j :: LastSlash(s) < j < |s| ==> s[j] != '/'
    decreases |s|
  {
    if s != [] && s[|s| - 1] != '/' {
      LastSlashIsLast(s[..|s| - 1]);
    }
  }

  lemma {:induction false} SplitNoSlash(x: string)
    requires '/' !in x
    ensures Split(x) == [x]
    decreases |x|
  {
    if x != [] {
      var y := x[..|x| - 1];
      assert '/' !in y by {
        forall k | 0 <= k < |y| ensures y[k] != '/' { assert y[k] == x[k]; }
      }
      SplitNoSlash(y);
      assert y + [x[|x| - 1]] == x;
    }
  }

  lemma {:induction false} SplitAppend(a: string, x: string)
    requires '/' !in x
    ensures Split(a + "/" + x) == Split(a) + [x]
    decreases |x|
  {
    var s := a + "/" + x;
    if x == [] {
      assert s[..|s| - 1] == a;
    } else {
      var y := x[..|x| - 1];
      assert '/' !in y by {
        forall k | 0 <= k < |y| ensures y[k] != '/' { assert y[k] == x[k]; }
      }
      SplitAppend(a, y);
      assert s[..|s| - 1] == a + "/" + y;
      assert y + [x[|x| - 1]] == x;
    }
  }

  /** Splitting a joined list gives the list back when no element holds a slash. */
  lemma {:induction false} SplitJoin(parts: seq<string>)
    requires |parts| >= 1
    requires forall i :: 0 <= i < |parts| ==> '/' !in parts[i]
    ensures Split(Join(parts)) == parts
    decreases |parts|
  {
    if |parts| == 1 {
      SplitNoSlash(parts[0]);
    } else {
      var init := parts[..|parts| - 1];
      SplitJoin(init);
      SplitAppend(Join(init), parts[|parts| - 1]);
      assert init + [parts[|parts| - 1]] == parts;
    }
  }

  /** path.Clean's scan always produces a clean element list. */
  lemma {:induction false} LexIsClean(parts: seq<string>, rooted: bool)
    requires forall i :: 0 <= i < |parts| ==> '/' !in parts[i]
    ensures CleanSegments(Lex(parts, rooted), rooted)
    decreases |parts|
  {
    if parts != [] {
      var init := parts[..|parts| - 1];
      LexIsClean(init, rooted);
      var kept := Lex(init, rooted);
      var p := parts[|parts| - 1];
      if p == ".." && !(|kept| > 0 && kept[|kept| - 1] != "..") && !rooted {
        assert forall i :: 0 <= i < |kept| ==> kept[i] == "..";
      }
    }
  }

  /** Scanning an already clean list keeps every element: path.Clean is idempotent. */
  lemma {:induction false} LexOfClean(segs: seq<string>, rooted: bool)
    requires CleanSegments(segs, rooted)
    ensures Lex(segs, rooted) == segs
    decreases |segs|
  {
    if segs != [] {
      var init := segs[..|segs| - 1];
      var last := segs[|segs| - 1];
      assert segs == init + [last];
      CleanInit(init, last, rooted);
      LexOfClean(init, rooted);
      StepKeepsClean(init, last, rooted);
    }
  }

  lemma CleanInit(init: seq<string>, last: string, rooted: bool)
    requires CleanSegments(init + [last], rooted)
    ensures CleanSegments(init, rooted)
  {
    assert forall i :: 0 <= i < |init| ==> init[i] == (init + [last])[i];
  }

  /** The scan keeps the next element of a clean list. */
  lemma StepKeepsClean(kept: seq<string>, part: string, rooted: bool)
    requires CleanSegments(kept + [part], rooted)
    ensures Step(kept, part, rooted) == kept + [part]
  {
    var all := kept + [part];
    assert all[|kept|] == part;
    if part == ".." && |kept| > 0 {
      assert all[|kept| - 1] == kept[|kept| - 1];
    }
  }

  /** The first element of a joined list is its leading text, followed by a slash if more follow. */
  lemma {:induction false} JoinStart(parts: seq<string>)
    requires |parts| >= 1
    ensures |parts[0]| <= |Join(parts)| && Join(parts)[..|parts[0]|] == parts[0]
    ensures |parts| >= 2 ==> |parts[0]| < |Join(parts)| && Join(parts)[|parts[0]|] == '/'
    decreases |parts|
  {
    if |parts| >= 2 {
      var init := parts[..|parts| - 1];
      JoinStart(init);
      assert Join(parts) == Join(init) + "/" + parts[|parts| - 1];
    }
  }

  /** The last element of a joined list is the text after its last slash. */
  lemma JoinEnd(parts: seq<string>)
    requires |parts| >= 2
    requires '/' !in parts[|parts| - 1]
    ensures var j := Join(parts); var init := Join(parts[..|parts| - 1]);
      && LastSlash(j) == |init|
      && j[..|init| + 1] == init + "/"
      && j[|init| + 1..] == parts[|parts| - 1]
  {
    var j := Join(parts);
    var init := Join(parts[..|parts| - 1]);
    var x := parts[|parts| - 1];
    assert j == init + "/" + x;
    assert j[|init|] == '/';
    LastSlashIsLast(j);
    forall k | |init| < k < |j| ensures j[k] != '/' {
      assert j[k] == x[k - |init| - 1];
    }
  }

  /** A clean, non-empty relative element list joins to a name path.Clean leaves alone. */
  lemma CleanOfJoin(segs: seq<string>)
    requires |segs| >= 1 && CleanSegments(segs, false)
    ensures !Rooted(Join(segs))
    ensures Segments(Join(segs)) == segs
    ensures Clean(Join(segs)) == Join(segs)
  {
    JoinStart(segs);
    assert Join(segs)[0] == segs[0][0];
    SplitJoin(segs);
    LexOfClean(segs, false);
  }

  /** A joined clean list is neither empty nor ".", and neither starts nor ends with a slash. */
  lemma JoinShape(segs: seq<string>)
    requires |segs| >= 1 && CleanSegments(segs, false)
    ensures var j := Join(segs);
      && |j| >= 1 && j[0] != '/' && j[|j| - 1] != '/'
      && j != "." && j != "/"
      && !HasPrefix(j, "./")
  {
    JoinStart(segs);
    var j := Join(segs);
    var last := segs[|segs| - 1];
    if |segs| >= 2 {
      assert j == Join(segs[..|segs| - 1]) + "/" + last;
    }
    assert j[|j| - 1] == last[|last| - 1];
    // "./" at the front would make the first element "." or put a slash inside it
    if |segs[0]| == 1 {
      assert segs[0] == [j[0]];
    } else {
      assert j[1] == segs[0][1];
    }
  }

  /** The elements path.Clean keeps are a clean list, and under the root they hold no "..". */
  lemma SegmentsClean(s: string)
    ensures CleanSegments(Segments(s), Rooted(s))
    ensures CleanSegments(Segments(s), false)
  {
    SplitParts(s);
    LexIsClean(Split(s), Rooted(s));
  }

  /** path.Clean never leaves a trailing slash, except on the root "/" itself. */
  lemma CleanNoTrailingSlash(s: string)
    ensures HasSuffix(Clean(s), "/") ==> Clean(s) == "/"
  {
    SegmentsClean(s);
    var segs := Segments(s);
    if segs != [] {
      JoinShape(segs);
    }
  }

  /** A trailing slash makes no difference to path.Clean on a non-empty name. */
  lemma CleanIgnoresTrailingSlash(d: string)
    requires d != ""
    ensures Clean(d + "/") == Clean(d)
  {
    var s := d + "/";
    assert s[..|s| - 1] == d;
    assert Split(s) == Split(d) + [""];
    assert Split(s)[..|Split(s)| - 1] == Split(d);
    assert Rooted(s) == Rooted(d);
  }

  /**
   * path.Dir of a clean relative name drops its last element; with one element
   * left it is ".".
   */
  lemma DirOfJoin(segs: seq<string>)
    requires |segs| >= 1 && CleanSegments(segs, false)
    ensures Dir(Join(segs)) == if |segs| == 1 then "." else Join(segs[..|segs| - 1])
  {
    if |segs| == 1 {
      LastSlashIsLast(Join(segs));
      assert LastSlash(Join(segs)) == -1;
      assert Split("") == [""];
    } else {
      var init := segs[..|segs| - 1];
      JoinEnd(segs);
      assert CleanSegments(init, false);
      CleanIgnoresTrailingSlash(Join(init));
      CleanOfJoin(init);
    }
  }

  /** path.Base of a clean relative name is its last element. */
  lemma BaseOfJoin(segs: seq<string>)
    requires |segs| >= 1 && CleanSegments(segs, false)
    ensures Base(Join(segs)) == segs[|segs| - 1]
  {
    JoinShape(segs);
    var j := Join(segs);
    BaseNoTrailingSlash(j);
    if |segs| >= 2 {
      JoinEnd(segs);
    } else {
      LastSlashIsLast(j);
      assert LastSlash(j) == -1;
    }
  }

  /** The base of a name that does not end in '/' is what follows its last slash. */
  lemma BaseNoTrailingSlash(p: string)
    requires |p| >= 1 && p[|p| - 1] != '/'
    ensures Base(p) == p[LastSlash(p) + 1..]
  {
    assert StripTrailingSlashes(p) == p;
    LastSlashIsLast(p);
  }
}
