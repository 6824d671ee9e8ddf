/**
 * Three places where the adapter's code does not do what it evidently means to do,
 * each shown on the code as written and paired with a corrected definition whose
 * intended property is proved.
 *
 * 1. newZipFS appends a file member's BASE name to the list of EVERY enclosing
 *    directory, so the root of an archive holding only "a/b" lists "b", and the
 *    listed "b" does not open. The intended walk records, under each enclosing
 *    directory, the next element on the way down to the member, so that every listed
 *    child opens.
 * 2. Readdir(count) with count >= the remaining records returns them without
 *    consuming them and never reports io.EOF, so a caller paging through a
 *    directory with a positive count collects the same records forever. The
 *    intended Readdir follows Go's os.File.Readdir convention: it consumes what it
 *    returns and, for a positive count, reports io.EOF with an empty page once
 *    nothing is left, so the pages add up to the listing.
 * 3. A directory member sets its key's list to empty, discarding the children
 *    recorded by earlier file members. With "a/b" then "a/", "a/b" opens as a file
 *    and "a" as a directory whose listing leaves out "b", which the other order
 *    lists. The intended step keeps a list that is already there.
 */
module ZipFindings {
  import opened IoErrors
  import opened FileInfos
  import opened GoPath
  import opened ZipIndex
  import opened ZipHandle
  import opened ZipOpen

  /** Every child name listed under every directory key opens as something. */
  predicate Navigable(z: ZipFS)
  {
    forall k, i :: k in z.dirs && 0 <= i < |z.dirs[k]| ==> Resolve(z, ChildPath(k, z.dirs[k][i])) != NotExist
  }

  // ---------------------------------------------------------------------------
  // 1. Base names under every ancestor, as written
  // ---------------------------------------------------------------------------

  /**
   * A file member with two or more elements whose first and last elements differ
   * (such as "a/b"): in the index of an archive holding only that member, the root
   * lists the last element, the listing shows it as a synthetic directory, and opening
   * it finds nothing.
   */
  lemma PhantomRootEntry(m: Member)
    requires !m.header.IsDir()
    requires |Segments(m.header.name)| >= 2
    requires Segments(m.header.name)[0] != Segments(m.header.name)[|Segments(m.header.name)| - 1]
    ensures var segs := Segments(m.header.name); var leaf := segs[|segs| - 1]; var z := Build([m]);
      && "" in z.dirs && z.dirs[""] == [leaf]
      && Listing(z, "") == [SyntheticDir(leaf)]
      && Resolve(z, ChildPath("", leaf)) == NotExist
  {
    var raw := m.header.name;
    var segs := Segments(raw);
    var leaf := segs[|segs| - 1];
    SingleMemberIndex(m);
    var z := Build([m]);
    RootAppend(EmptyIndex, m);
    BaseOfMemberName(raw);
    assert z.dirs[""] == [leaf];
    MemberNameShape(raw);
    LeafIsClean(segs);
    TopLevelChildPath(leaf);
    LeafNotIndexed(m);
    OpenOfJoin([leaf]);
  }

  lemma SingleMemberIndex(m: Member)
    ensures Build([m]) == AddMember(EmptyIndex, m)
  {
    assert [m][..0] == [];
  }

  /** The last element is neither a stored file nor a directory key of that index. */
  lemma LeafNotIndexed(m: Member)
    requires !m.header.IsDir()
    requires |Segments(m.header.name)| >= 2
    requires Segments(m.header.name)[0] != Segments(m.header.name)[|Segments(m.header.name)| - 1]
    ensures var segs := Segments(m.header.name); var leaf := segs[|segs| - 1];
      leaf !in Build([m]).files && leaf + "/" !in Build([m]).dirs
  {
    SingleMemberIndex(m);
    LeafNotFile(m);
    LeafNotKey(m);
  }

  lemma LeafNotFile(m: Member)
    requires !m.header.IsDir() && |Segments(m.header.name)| >= 2
    ensures var segs := Segments(m.header.name); segs[|segs| - 1] !in AddMember(EmptyIndex, m).files
  {
    var segs := Segments(m.header.name);
    MemberNameShape(m.header.name);
    AddFileUntouched(EmptyIndex, m);
    SlashInLongJoin(segs);
  }

  lemma LeafNotKey(m: Member)
    requires !m.header.IsDir() && |Segments(m.header.name)| >= 2
    requires Segments(m.header.name)[0] != Segments(m.header.name)[|Segments(m.header.name)| - 1]
    ensures var segs := Segments(m.header.name); segs[|segs| - 1] + "/" !in AddMember(EmptyIndex, m).dirs
  {
    var segs := Segments(m.header.name);
    var k := segs[|segs| - 1] + "/";
    SegmentsClean(m.header.name);
    NotAncestorKey(segs);
    AddFileUntouched(EmptyIndex, m);
    assert k in AddMember(EmptyIndex, m).dirs <==> k in EmptyIndex.dirs;
  }

  /** So the index built as written from such a member is not navigable. */
  lemma AsWrittenNotNavigable(m: Member)
    requires !m.header.IsDir()
    requires |Segments(m.header.name)| >= 2
    requires Segments(m.header.name)[0] != Segments(m.header.name)[|Segments(m.header.name)| - 1]
    ensures !Navigable(Build([m]))
  {
    PhantomRootEntry(m);
    var z := Build([m]);
    assert z.dirs[""][0] == Segments(m.header.name)[|Segments(m.header.name)| - 1];
  }

  /** The last element of a clean list is a clean one-element list unless it is "..". */
  lemma LeafIsClean(segs: seq<string>)
    requires |segs| >= 2 && CleanSegments(segs, false)
    requires segs[0] != segs[|segs| - 1]
    ensures CleanSegments([segs[|segs| - 1]], false)
    ensures segs[|segs| - 1] != ".."
  {
  }

  /** A one-element name under the root is looked up as itself. */
  lemma TopLevelChildPath(leaf: string)
    requires CleanSegments([leaf], false)
    ensures ChildPath("", leaf) == leaf
  {
    CleanOfJoin([leaf]);
    JoinShape([leaf]);
  }

  /** A name of two or more elements holds a slash. */
  lemma SlashInLongJoin(segs: seq<string>)
    requires |segs| >= 2
    ensures '/' in Join(segs)
  {
    var init := Join(segs[..|segs| - 1]);
    assert Join(segs)[|init|] == '/';
  }

  /** The last element, as a directory key, is not among the member's ancestor keys. */
  lemma NotAncestorKey(segs: seq<string>)
    requires |segs| >= 2 && CleanSegments(segs, false)
    requires segs[0] != segs[|segs| - 1]
    ensures segs[|segs| - 1] + "/" !in AncestorKeys(segs)
  {
    AncestorKeysOnly(segs);
    forall j | 1 <= j < |segs|
      ensures DirKey(segs[..j]) != segs[|segs| - 1] + "/"
    {
      KeyNotLeaf(segs, j);
    }
  }

  /** No enclosing directory's key is the last element as a key. */
  lemma KeyNotLeaf(segs: seq<string>, j: nat)
    requires |segs| >= 2 && CleanSegments(segs, false)
    requires segs[0] != segs[|segs| - 1]
    requires 1 <= j < |segs|
    ensures DirKey(segs[..j]) != segs[|segs| - 1] + "/"
  {
    var leaf := segs[|segs| - 1];
    var d := Join(segs[..j]);
    if j >= 2 {
      SlashInLongJoin(segs[..j]);
      assert '/' !in leaf;
    } else {
      assert segs[..j] == [segs[0]];
    }
    assert d != leaf;
    assert (d + "/")[..|d|] == d && (leaf + "/")[..|leaf|] == leaf;
  }

  // ---------------------------------------------------------------------------
  // 1. The intended walk
  // ---------------------------------------------------------------------------

  /**
   * The intended walk of a member whose elements are `segs`: for each t, element t is
   * recorded under the directory of the elements before it.
   */
  function Walk(segs: seq<string>): (w: seq<(string, string)>)
    ensures |w| == |segs|
  {
    if segs == [] then []
    else Walk(segs[..|segs| - 1]) + [(DirKey(segs[..|segs| - 1]), segs[|segs| - 1])]
  }

  /** AppendChild for each (key, child) pair in turn. */
  function AppendPairs(dirs: map<string, seq<string>>, w: seq<(string, string)>): map<string, seq<string>>
  {
    if w == [] then dirs
    else AppendChild(AppendPairs(dirs, w[..|w| - 1]), w[|w| - 1].0, w[|w| - 1].1)
  }

  /**
   * newZipFS's member step as intended: a directory member creates its key only when it
   * is absent, and a file member's elements are recorded one under the other, from the
   * root down to the member.
   */
  function AddMemberIntended(z: ZipFS, m: Member): ZipFS
  {
    var name := MemberName(m.header.name);
    var segs := Segments(m.header.name);
    var key := TrimSuffix(name, "/") + "/";
    if m.header.IsDir() then
      z.(dirs := z.dirs[key := Children(z.dirs, key)])
    else
      ZipFS(z.files[name := m], AppendPairs(z.dirs, Walk(segs)))
  }

  function BuildIntended(members: seq<Member>): ZipFS
  {
    if members == [] then EmptyIndex
    else AddMemberIntended(BuildIntended(members[..|members| - 1]), members[|members| - 1])
  }

  /** In an index built with the intended walk, every listed child opens. */
  lemma {:induction false} BuildIntendedNavigable(members: seq<Member>)
    ensures Navigable(BuildIntended(members))
  {
    if members != [] {
      BuildIntendedNavigable(members[..|members| - 1]);
      AddIntendedKeepsNavigable(BuildIntended(members[..|members| - 1]), members[|members| - 1]);
    }
  }

  /** The intended member step keeps every listed child openable. */
  lemma AddIntendedKeepsNavigable(z: ZipFS, m: Member)
    requires Navigable(z)
    ensures Navigable(AddMemberIntended(z, m))
  {
    var z' := AddMemberIntended(z, m);
    var segs := Segments(m.header.name);
    if !m.header.IsDir() {
      AppendPairsKeys(z.dirs, Walk(segs));
    }
    forall k, i | k in z'.dirs && 0 <= i < |z'.dirs[k]|
      ensures Resolve(z', ChildPath(k, z'.dirs[k][i])) != NotExist
    {
      if m.header.IsDir() {
        assert k in z.dirs && z'.dirs[k] == z.dirs[k];
        ResolveGrows(z, z', ChildPath(k, z.dirs[k][i]));
      } else {
        AppendPairsChildren(z.dirs, Walk(segs), k, i);
        if k in z.dirs && i < |z.dirs[k]| && z'.dirs[k][i] == z.dirs[k][i] {
          ResolveGrows(z, z', ChildPath(k, z.dirs[k][i]));
        } else {
          var t :| 0 <= t < |segs| && Walk(segs)[t] == (k, z'.dirs[k][i]);
          WalkAt(segs, t);
          NewChildOpens(z, m, t);
        }
      }
    }
  }

  /** The child a file member adds under its t-th enclosing directory opens. */
  lemma NewChildOpens(z: ZipFS, m: Member, t: nat)
    requires !m.header.IsDir() && t < |Segments(m.header.name)|
    ensures var segs := Segments(m.header.name);
      Resolve(AddMemberIntended(z, m), ChildPath(DirKey(segs[..t]), segs[t])) != NotExist
  {
    var segs := Segments(m.header.name);
    var d := Join(segs[..t + 1]);
    SegmentsClean(m.header.name);
    ChildPathStep(segs, t);
    CleanPrefix(segs, t + 1);
    OpenOfJoin(segs[..t + 1]);
    var z' := AddMemberIntended(z, m);
    if t + 1 == |segs| {
      IntendedStoresFile(z, m);
      assert segs[..t + 1] == segs;
      assert d in z'.files;
    } else {
      IntendedWalkKey(z, m, t + 1);
      assert DirKey(segs[..t + 1]) == d + "/";
      assert d + "/" in z'.dirs;
    }
    ResolveFound(z', d);
  }

  /** A name looked up as itself opens when it is stored or is a directory key. */
  lemma ResolveFound(z: ZipFS, d: string)
    requires OpenName(d) == d && d != "." && d != "" && TrimSuffix(d, "/") + "/" == d + "/"
    requires d in z.files || d + "/" in z.dirs
    ensures Resolve(z, d) != NotExist
  {
  }

  /** A file member is stored under its joined elements. */
  lemma IntendedStoresFile(z: ZipFS, m: Member)
    requires !m.header.IsDir() && Segments(m.header.name) != []
    ensures Join(Segments(m.header.name)) in AddMemberIntended(z, m).files
  {
    MemberNameShape(m.header.name);
  }

  /** The walk creates the key of every enclosing directory. */
  lemma IntendedWalkKey(z: ZipFS, m: Member, t: nat)
    requires !m.header.IsDir() && t < |Segments(m.header.name)|
    ensures DirKey(Segments(m.header.name)[..t]) in AddMemberIntended(z, m).dirs
  {
    var segs := Segments(m.header.name);
    AppendPairsKeys(z.dirs, Walk(segs));
    WalkAt(segs, t);
    assert Walk(segs)[t] in Walk(segs);
  }

  /** The full name of element t under the directory of the elements before it. */
  lemma ChildPathStep(segs: seq<string>, t: nat)
    requires CleanSegments(segs, false) && t < |segs|
    ensures ChildPath(DirKey(segs[..t]), segs[t]) == Join(segs[..t + 1])
  {
    CleanPrefix(segs, t + 1);
    var next := segs[..t + 1];
    CleanOfJoin(next);
    JoinShape(next);
    if t == 0 {
      assert next == [segs[0]];
    } else {
      var d := Join(segs[..t]);
      TrimSuffixRemoves(d + "/", "/");
      assert next[..t] == segs[..t];
      assert Join(next) == d + "/" + segs[t];
    }
  }

  /** Adding files and keys never makes a name stop opening. */
  lemma ResolveGrows(z: ZipFS, z': ZipFS, name: string)
    requires z.files.Keys <= z'.files.Keys && z.dirs.Keys <= z'.dirs.Keys
    requires Resolve(z, name) != NotExist
    ensures Resolve(z', name) != NotExist
  {
  }

  /** Each step of the walk: element t under the key of the elements before it. */
  lemma {:induction false} WalkAt(segs: seq<string>, t: nat)
    requires t < |segs|
    ensures Walk(segs)[t] == (DirKey(segs[..t]), segs[t])
    decreases |segs|
  {
    var n := |segs|;
    if t < n - 1 {
      WalkAt(segs[..n - 1], t);
      assert segs[..n - 1][..t] == segs[..t];
    }
  }

  /** Appending pairs keeps every key and adds the key of each pair. */
  lemma {:induction false} AppendPairsKeys(dirs: map<string, seq<string>>, w: seq<(string, string)>)
    ensures dirs.Keys <= AppendPairs(dirs, w).Keys
    ensures forall p :: p in w ==> p.0 in AppendPairs(dirs, w)
  {
    if w != [] {
      var init := w[..|w| - 1];
      AppendPairsKeys(dirs, init);
      assert w == init + [w[|w| - 1]];
    }
  }

  /**
   * After appending pairs, each listed child is either the one that was there before or
   * the child of a pair with that key.
   */
  lemma {:induction false} AppendPairsChildren(dirs: map<string, seq<string>>, w: seq<(string, string)>, k: string, i: nat)
    requires k in AppendPairs(dirs, w) && i < |AppendPairs(dirs, w)[k]|
    ensures var c := AppendPairs(dirs, w)[k][i];
      (k in dirs && i < |dirs[k]| && c == dirs[k][i]) || (k, c) in w
  {
    if w != [] {
      var init := w[..|w| - 1];
      var last := w[|w| - 1];
      var before := AppendPairs(dirs, init);
      assert w == init + [last];
      AppendChildEntry(before, last.0, last.1, k, i);
      if k in before && i < |before[k]| && AppendPairs(dirs, w)[k][i] == before[k][i] {
        AppendPairsChildren(dirs, init, k, i);
      }
    }
  }

  /** Each entry after one append is the appended child or the entry that was there. */
  lemma AppendChildEntry(dirs: map<string, seq<string>>, key: string, c: string, k: string, i: nat)
    requires k in AppendChild(dirs, key, c) && i < |AppendChild(dirs, key, c)[k]|
    ensures var e := AppendChild(dirs, key, c)[k][i];
      || (k == key && e == c)
      || (k in dirs && i < |dirs[k]| && e == dirs[k][i])
  {
  }


  // ---------------------------------------------------------------------------
  // 2. Readdir paging, as written
  // ---------------------------------------------------------------------------

  /** `s` repeated k times. */
  function Repeat(s: seq<FileInfo>, k: nat): (r: seq<FileInfo>)
    ensures |r| == k * |s|
  {
    if k == 0 then [] else s + Repeat(s, k - 1)
  }

  /**
   * With a positive count that covers the remaining records, each of k calls returns
   * all of them again and none reports io.EOF: k calls collect the listing k times.
   */
  lemma {:induction false} ReaddirRepeats(entries: seq<FileInfo>, count: int, k: nat)
    requires 0 < |entries| <= count
    ensures ReaddirCalls(entries, count, k) == Repeat(entries, k)
    ensures |ReaddirCalls(entries, count, k)| == k * |entries|
  {
    if k > 0 {
      ReaddirRepeats(entries, count, k - 1);
    }
  }

  // ---------------------------------------------------------------------------
  // 2. The intended Readdir
  // ---------------------------------------------------------------------------

  /** What one Readdir call returns: a page of records, the records left, and an error. */
  datatype Page = Page(records: seq<FileInfo>, rest: seq<FileInfo>, err: Option<Error>)

  /**
   * Readdir with a consuming cursor, as os.File.Readdir does it: count <= 0 returns
   * all remaining records and leaves none; a positive count returns up to that many
   * and leaves the rest, and once nothing is left it returns an empty page with io.EOF.
   */
  function ReaddirIntended(entries: seq<FileInfo>, count: int): (page: Page)
    ensures page.records + page.rest == entries
    ensures count <= 0 || count >= |entries| ==> page.rest == []
    ensures 0 < count < |entries| ==> |page.records| == count
    ensures page.err == Some(EOF) <==> count > 0 && entries == []
    ensures page.err == None || page.err == Some(EOF)
  {
    if count > 0 && entries == [] then Page([], [], Some(EOF))
    else if count <= 0 || count >= |entries| then Page(entries, [], None)
    else Page(entries[..count], entries[count..], None)
  }

  /**
   * The records a caller collects from Readdir(count): one call for count <= 0,
   * otherwise calls until io.EOF.
   */
  function PageThrough(entries: seq<FileInfo>, count: int): seq<FileInfo>
    decreases |entries|
  {
    var page := ReaddirIntended(entries, count);
    if page.err.Some? then []
    else if count <= 0 then page.records
    else page.records + PageThrough(page.rest, count)
  }

  /** Paging with any count delivers each record of the listing once, in order. */
  lemma {:induction false} PageThroughIsListing(entries: seq<FileInfo>, count: int)
    ensures PageThrough(entries, count) == entries
    decreases |entries|
  {
    var page := ReaddirIntended(entries, count);
    if page.err.None? && count > 0 {
      PageThroughIsListing(page.rest, count);
    }
  }

  /**
   * After a positive count has handed out the whole listing, the next Readdir returns
   * an empty page with io.EOF.
   */
  lemma ExhaustedIsEmpty(entries: seq<FileInfo>, count: int)
    requires 0 < count && |entries| <= count
    ensures ReaddirIntended(entries, count).records == entries
    ensures ReaddirIntended(ReaddirIntended(entries, count).rest, count) == Page([], [], Some(EOF))
  {
  }

  // ---------------------------------------------------------------------------
  // 3. Directory members, intended
  // ---------------------------------------------------------------------------

  /**
   * No member step discards a listed child: every key stays present and every list
   * only grows at its end.
   */
  lemma AddIntendedKeepsListed(z: ZipFS, m: Member)
    ensures var z' := AddMemberIntended(z, m);
      forall k :: k in z.dirs ==> k in z'.dirs && z.dirs[k] <= z'.dirs[k]
  {
    if !m.header.IsDir() {
      AppendPairsGrows(z.dirs, Walk(Segments(m.header.name)));
    }
  }

  /** Appending pairs only extends lists. */
  lemma {:induction false} AppendPairsGrows(dirs: map<string, seq<string>>, w: seq<(string, string)>)
    ensures forall k :: k in dirs ==> k in AppendPairs(dirs, w) && dirs[k] <= AppendPairs(dirs, w)[k]
  {
    if w != [] {
      var init := w[..|w| - 1];
      AppendPairsGrows(dirs, init);
      var before := AppendPairs(dirs, init);
      forall k | k in dirs
        ensures dirs[k] <= AppendPairs(dirs, w)[k]
      {
        PrefixGrows(dirs[k], before[k], AppendPairs(dirs, w)[k]);
      }
    }
  }

  lemma PrefixGrows(a: seq<string>, b: seq<string>, c: seq<string>)
    requires a <= b && b <= c
    ensures a <= c
  {
    assert c[..|a|] == b[..|a|];
  }
}
