/**
 * The index the adapter builds over an archive's flat member list (newZipFS):
 * `files` maps a member's cleaned name to the member, `dirs` maps a directory key
 * ("" for the root, otherwise a name ending in '/') to the list of child names
 * recorded for it.
 *
 * Build is the specification, member by member; NewZipFS is the source's loop,
 * proved to compute it.
 */
module ZipIndex {
  import opened GoPath
  import opened FileInfos

  datatype ZipFS = ZipFS(files: map<string, Member>, dirs: map<string, seq<string>>)

  /** The index of an archive with no members. */
  const EmptyIndex: ZipFS := ZipFS(map[], map[])

  /** The name a member is indexed under: cleaned, then without a leading "./" or "/". */
  function MemberName(raw: string): string
  {
    TrimPrefix(TrimPrefix(Clean(raw), "./"), "/")
  }

  /** The key of the directory whose elements are `segs`: "" for the root, "a/b/" otherwise. */
  function DirKey(segs: seq<string>): string
  {
    if |segs| == 0 then "" else Join(segs) + "/"
  }

  /**
   * The keys of the directories enclosing a member whose cleaned elements are `segs`,
   * from its parent up to the root.
   */
  function AncestorKeys(segs: seq<string>): (keys: seq<string>)
    ensures |keys| == if |segs| <= 1 then 1 else |segs|
  {
    if |segs| <= 1 then [""]
    else [DirKey(segs[..|segs| - 1])] + AncestorKeys(segs[..|segs| - 1])
  }

  /** z.dirs[key] in Go: the recorded list, or the empty (nil) list when the key is absent. */
  function Children(dirs: map<string, seq<string>>, key: string): seq<string>
  {
    if key in dirs then dirs[key] else []
  }

  /** z.dirs[key] = append(z.dirs[key], child). */
  function AppendChild(dirs: map<string, seq<string>>, key: string, child: string): map<string, seq<string>>
  {
    dirs[key := Children(dirs, key) + [child]]
  }

  /** AppendChild for every key in turn. */
  function AppendToAll(dirs: map<string, seq<string>>, keys: seq<string>, child: string): map<string, seq<string>>
    decreases |keys|
  {
    if keys == [] then dirs
    else AppendToAll(AppendChild(dirs, keys[0], child), keys[1..], child)
  }

  /**
   * One iteration of newZipFS's member loop. A directory member resets its key's
   * list to empty; a file member is stored under its name (replacing any earlier one)
   * and its base name is appended to the list of every enclosing directory.
   */
  function AddMember(z: ZipFS, m: Member): ZipFS
  {
    var name := MemberName(m.header.name);
    if m.header.IsDir() then
      z.(dirs := z.dirs[TrimSuffix(name, "/") + "/" := []])
    else
      ZipFS(z.files[name := m], AppendToAll(z.dirs, AncestorKeys(Segments(m.header.name)), Base(name)))
  }

  /** The index newZipFS builds from the members, in archive order. */
  function Build(members: seq<Member>): ZipFS
  {
    if members == [] then EmptyIndex
    else AddMember(Build(members[..|members| - 1]), members[|members| - 1])
  }

  /** The member is a file stored under `name`. */
  predicate StoredAs(m: Member, name: string)
  {
    !m.header.IsDir() && MemberName(m.header.name) == name
  }

  // ---------------------------------------------------------------------------
  // newZipFS
  // ---------------------------------------------------------------------------

  /** The value of newZipFS's `dir` while it walks up from a member with elements `pre`. */
  ghost function ParentDir(pre: seq<string>): string
  {
    if |pre| <= 1 then "" else Join(pre[..|pre| - 1])
  }

  /** newZipFS: one pass over the members, filling `files` and `dirs` in place. */
  method NewZipFS(members: seq<Member>) returns (z: ZipFS)
    ensures z == Build(members)
  {
    var files: map<string, Member> := map[];
    var dirs: map<string, seq<string>> := map[];
    var i := 0;
    while i < |members|
      invariant 0 <= i <= |members|
      invariant ZipFS(files, dirs) == Build(members[..i])
    {
      files, dirs := IndexMember(files, dirs, members[i]);
      BuildSnoc(members, i);
      i := i + 1;
    }
    assert members[..i] == members;
    z := ZipFS(files, dirs);
  }

  method IndexMember(files: map<string, Member>, dirs: map<string, seq<string>>, f: Member)
    returns (files': map<string, Member>, dirs': map<string, seq<string>>)
    ensures ZipFS(files', dirs') == AddMember(ZipFS(files, dirs), f)
  {
    files', dirs' := files, dirs;
    var name := MemberName(f.header.name);
    if f.header.IsDir() {
      var dir := TrimSuffix(name, "/") + "/";
      dirs' := dirs'[dir := []];
    } else {
      files' := files'[name := f];
      MemberNameShape(f.header.name);
      dirs' := RecordAncestors(dirs', name, Segments(f.header.name));
    }
  }

  /**
   * newZipFS's walk from a file member up to the root: the member's base name is
   * appended under the key of its parent, then of each further ancestor, and last
   * under the root key "".
   */
  method RecordAncestors(dirs: map<string, seq<string>>, name: string, ghost segs: seq<string>)
    returns (dirs': map<string, seq<string>>)
    requires CleanSegments(segs, false)
    requires segs != [] ==> name == Join(segs)
    requires segs == [] ==> name == "" || name == "."
    ensures dirs' == AppendToAll(dirs, AncestorKeys(segs), Base(name))
  {
    dirs' := dirs;
    ghost var target := AppendToAll(dirs, AncestorKeys(segs), Base(name));
    var dir := Dir(name);
    if dir == "." {
      dir := "";
    }
    ParentDirStart(segs, name, dir);
    ghost var pre := segs;
    while true
      invariant CleanSegments(pre, false)
      invariant dir == ParentDir(pre)
      invariant AppendToAll(dirs', AncestorKeys(pre), Base(name)) == target
      decreases |pre|
    {
      var key := dir;
      if key != "" {
        key := TrimPrefix(key, "/");
        key := TrimSuffix(key, "/") + "/";
      } else {
        key := "";
      }
      WalkStep(pre, dir, key);
      ghost var walked := dirs';
      dirs' := dirs'[key := Children(dirs', key) + [Base(name)]];
      if dir == "" || dir == "." || dir == "/" {
        WalkLast(walked, dirs', key, pre, Base(name));
        break;
      }
      dir := Dir(dir);
      if dir == "." {
        dir := "";
      }
      WalkAppend(walked, dirs', key, pre, Base(name));
      pre := pre[..|pre| - 1];
    }
  }

  // ---------------------------------------------------------------------------
  // Lemmas behind newZipFS's loop
  // ---------------------------------------------------------------------------

  /** What MemberName leaves of a raw member name: the joined clean elements, or "." / "". */
  lemma MemberNameShape(raw: string)
    ensures CleanSegments(Segments(raw), false)
    ensures MemberName(raw) ==
      if Segments(raw) != [] then Join(Segments(raw))
      else if Rooted(raw) then "" else "."
  {
    SegmentsClean(raw);
    if Rooted(raw) {
      RootedMemberName(raw);
    } else {
      RelativeMemberName(raw);
    }
  }

  lemma RootedMemberName(raw: string)
    requires Rooted(raw)
    ensures MemberName(raw) == Join(Segments(raw))
  {
    var j := Join(Segments(raw));
    assert Clean(raw) == "/" + j;
    TrimRootSlash(j);
  }

  lemma RelativeMemberName(raw: string)
    requires !Rooted(raw)
    ensures MemberName(raw) == if Segments(raw) != [] then Join(Segments(raw)) else "."
  {
    var segs := Segments(raw);
    if segs != [] {
      var j := Join(segs);
      SegmentsClean(raw);
      JoinShape(segs);
      assert Clean(raw) == j;
      NoLeadingSlash(j);
    } else {
      assert Clean(raw) == ".";
      NoLeadingSlash(".");
      assert !HasPrefix(".", "./");
    }
  }

  lemma BuildSnoc(members: seq<Member>, i: nat)
    requires i < |members|
    ensures Build(members[..i + 1]) == AddMember(Build(members[..i]), members[i])
  {
    assert members[..i + 1][..i] == members[..i];
  }

  lemma AppendToAllCons(dirs: map<string, seq<string>>, key: string, rest: seq<string>, child: string)
    ensures AppendToAll(dirs, [key] + rest, child) == AppendToAll(AppendChild(dirs, key, child), rest, child)
  {
    assert ([key] + rest)[1..] == rest;
  }

  lemma CleanPrefix(segs: seq<string>, n: nat)
    requires CleanSegments(segs, false) && n <= |segs|
    ensures CleanSegments(segs[..n], false)
  {
  }

  /** newZipFS's first `dir` is the member's parent, with "." read as the root "". */
  lemma ParentDirStart(segs: seq<string>, name: string, dir: string)
    requires CleanSegments(segs, false)
    requires segs != [] ==> name == Join(segs)
    requires segs == [] ==> name == "" || name == "."
    requires dir == if Dir(name) == "." then "" else Dir(name)
    ensures dir == ParentDir(segs)
  {
    if segs == [] {
      assert Split("") == [""];
      LastSlashIsLast(name);
      assert LastSlash(name) == -1;
    } else {
      DirOfJoin(segs);
      if |segs| >= 2 {
        JoinShape(segs[..|segs| - 1]);
      }
    }
  }

  /** The last turn of the walk appends the child under the root key and is done. */
  lemma WalkLast(walked: map<string, seq<string>>, dirs: map<string, seq<string>>, key: string,
                 pre: seq<string>, child: string)
    requires AncestorKeys(pre) == [key]
    requires dirs == walked[key := Children(walked, key) + [child]]
    ensures dirs == AppendToAll(walked, AncestorKeys(pre), child)
  {
    assert [key][1..] == [];
  }

  /** A middle turn of the walk appends the child under the first remaining key. */
  lemma WalkAppend(walked: map<string, seq<string>>, dirs: map<string, seq<string>>, key: string,
                   pre: seq<string>, child: string)
    requires |pre| > 1 && AncestorKeys(pre) == [key] + AncestorKeys(pre[..|pre| - 1])
    requires dirs == walked[key := Children(walked, key) + [child]]
    ensures AppendToAll(dirs, AncestorKeys(pre[..|pre| - 1]), child) == AppendToAll(walked, AncestorKeys(pre), child)
  {
    AppendToAllCons(walked, key, AncestorKeys(pre[..|pre| - 1]), child);
  }

  /**
   * One turn of the ancestor walk: the key newZipFS derives from `dir` is the first
   * remaining ancestor key, the walk stops exactly at the root, and otherwise the next
   * `dir` is the parent's parent.
   */
  lemma WalkStep(pre: seq<string>, dir: string, key: string)
    requires CleanSegments(pre, false)
    requires dir == ParentDir(pre)
    requires key == if dir != "" then TrimSuffix(TrimPrefix(dir, "/"), "/") + "/" else ""
    ensures |pre| <= 1 ==> AncestorKeys(pre) == [key]
    ensures |pre| > 1 ==> AncestorKeys(pre) == [key] + AncestorKeys(pre[..|pre| - 1])
    ensures (dir == "" || dir == "." || dir == "/") <==> |pre| <= 1
    ensures |pre| > 1 ==>
      ParentDir(pre[..|pre| - 1]) == if Dir(dir) == "." then "" else Dir(dir)
    ensures |pre| > 1 ==> CleanSegments(pre[..|pre| - 1], false)
  {
    if |pre| > 1 {
      var up := pre[..|pre| - 1];
      assert CleanSegments(up, false);
      WalkKey(up, dir, key);
      WalkNext(up, dir);
    }
  }

  /** Above a member's parent, the key derived from `dir` is the directory's key. */
  lemma WalkKey(up: seq<string>, dir: string, key: string)
    requires |up| >= 1 && CleanSegments(up, false)
    requires dir == Join(up)
    requires key == if dir != "" then TrimSuffix(TrimPrefix(dir, "/"), "/") + "/" else ""
    ensures key == DirKey(up)
    ensures dir != "" && dir != "." && dir != "/"
  {
    JoinShape(up);
    assert !HasPrefix(dir, "/");
  }

  /** path.Dir of a directory's joined name is its parent's, or "." at the top. */
  lemma WalkNext(up: seq<string>, dir: string)
    requires |up| >= 1 && CleanSegments(up, false)
    requires dir == Join(up)
    ensures ParentDir(up) == if Dir(dir) == "." then "" else Dir(dir)
  {
    DirOfJoin(up);
    if |up| >= 2 {
      GrandparentNotDot(up);
    }
  }

  lemma GrandparentNotDot(up: seq<string>)
    requires |up| >= 2 && CleanSegments(up, false)
    ensures Join(up[..|up| - 1]) != "."
  {
    CleanPrefix(up, |up| - 1);
    JoinShape(up[..|up| - 1]);
  }

  // ---------------------------------------------------------------------------
  // Properties of the index
  // ---------------------------------------------------------------------------

  /** Position i of the ancestor list is the key of the directory i levels above the parent. */
  lemma {:induction false} AncestorKeysAt(segs: seq<string>, i: nat)
    requires i < |segs|
    ensures |AncestorKeys(segs)| == |segs|
    ensures AncestorKeys(segs)[i] == DirKey(segs[..|segs| - 1 - i])
    decreases |segs|
  {
    if |segs| > 1 && i > 0 {
      AncestorKeysAt(segs[..|segs| - 1], i - 1);
      AncestorKeysAtStep(segs, i);
    } else {
      AncestorKeysAtFirst(segs, i);
    }
  }

  /** The first key of the walk is the parent's. */
  lemma AncestorKeysAtFirst(segs: seq<string>, i: nat)
    requires i < |segs| && (|segs| == 1 || i == 0)
    ensures AncestorKeys(segs)[i] == DirKey(segs[..|segs| - 1 - i])
  {
    if |segs| == 1 {
      assert segs[..0] == [];
    } else {
      AncestorKeysHead(segs);
    }
  }

  /** A later key of the walk is the corresponding key of the walk from the parent. */
  lemma AncestorKeysAtStep(segs: seq<string>, i: nat)
    requires 1 < |segs| && 0 < i < |segs|
    requires AncestorKeys(segs[..|segs| - 1])[i - 1] == DirKey(segs[..|segs| - 1][..|segs| - 1 - i])
    ensures AncestorKeys(segs)[i] == DirKey(segs[..|segs| - 1 - i])
  {
    var up := segs[..|segs| - 1];
    var p := up[..|segs| - 1 - i];
    var q := segs[..|segs| - 1 - i];
    assert p == q;
    AncestorKeysTail(segs, i);
  }

  /** The walk starts at the parent's key. */
  lemma AncestorKeysHead(segs: seq<string>)
    requires 1 < |segs|
    ensures AncestorKeys(segs)[0] == DirKey(segs[..|segs| - 1])
  {
  }

  /** After the parent's key, the walk goes on as the walk from the parent. */
  lemma AncestorKeysTail(segs: seq<string>, i: nat)
    requires 0 < i < |segs|
    ensures AncestorKeys(segs)[i] == AncestorKeys(segs[..|segs| - 1])[i - 1]
  {
  }

  /** Every key of the walk from a member's parent upwards is shorter than the parent's own key. */
  lemma {:induction false} AncestorKeysShorter(segs: seq<string>)
    requires |segs| >= 1
    ensures forall k :: k in AncestorKeys(segs) ==> |k| < |DirKey(segs)|
    decreases |segs|
  {
    if |segs| >= 2 {
      var init := segs[..|segs| - 1];
      AncestorKeysShorter(init);
      assert Join(segs) == Join(init) + "/" + segs[|segs| - 1];
    }
  }

  /** The ancestor keys of one member are pairwise distinct, so no list gets the name twice from one member. */
  lemma {:induction false} AncestorKeysDistinct(segs: seq<string>)
    ensures forall a, b :: 0 <= a < b < |AncestorKeys(segs)| ==> AncestorKeys(segs)[a] != AncestorKeys(segs)[b]
    decreases |segs|
  {
    if |segs| >= 2 {
      var init := segs[..|segs| - 1];
      var keys, rest := AncestorKeys(segs), AncestorKeys(init);
      AncestorKeysDistinct(init);
      AncestorKeysShorter(init);
      assert keys == [DirKey(init)] + rest;
      forall a, b | 0 <= a < b < |keys| ensures keys[a] != keys[b] {
        assert keys[b] == rest[b - 1];
        if a == 0 {
          assert |keys[b]| < |keys[a]|;
        } else {
          assert keys[a] == rest[a - 1];
        }
      }
    }
  }

  /**
   * The ancestor walk visits every directory enclosing the member: the root "" and,
   * for every proper prefix of its elements, that prefix joined and followed by '/'.
   */
  lemma AncestorKeysCover(segs: seq<string>)
    ensures "" in AncestorKeys(segs)
    ensures forall j :: 0 <= j < |segs| ==> DirKey(segs[..j]) in AncestorKeys(segs)
  {
    RootIsAncestor(segs);
    forall j | 0 <= j < |segs| ensures DirKey(segs[..j]) in AncestorKeys(segs) {
      AncestorKeysAt(segs, |segs| - 1 - j);
    }
  }

  /** ... and nothing else: every key it visits is the root or an enclosing directory's key. */
  lemma AncestorKeysOnly(segs: seq<string>)
    ensures forall k :: k in AncestorKeys(segs) ==>
      k == "" || (HasSuffix(k, "/") && exists j :: 1 <= j < |segs| && k == DirKey(segs[..j]))
  {
    forall k | k in AncestorKeys(segs)
      ensures k == "" || (HasSuffix(k, "/") && exists j :: 1 <= j < |segs| && k == DirKey(segs[..j]))
    {
      var i :| 0 <= i < |AncestorKeys(segs)| && AncestorKeys(segs)[i] == k;
      AncestorKeyIs(segs, i);
    }
  }

  lemma AncestorKeyIs(segs: seq<string>, i: nat)
    requires i < |AncestorKeys(segs)|
    ensures var k := AncestorKeys(segs)[i];
      k == "" || (HasSuffix(k, "/") && 1 <= |segs| - 1 - i && k == DirKey(segs[..|segs| - 1 - i]))
  {
    if |segs| > 0 {
      AncestorKeysAt(segs, i);
    }
  }

  /**
   * Appending one child to a list of distinct keys appends it once to each of them
   * (creating the list when absent) and leaves every other key as it was.
   */
  lemma {:induction false} AppendToAllEffect(dirs: map<string, seq<string>>, keys: seq<string>, child: string)
    requires forall a, b :: 0 <= a < b < |keys| ==> keys[a] != keys[b]
    ensures var r := AppendToAll(dirs, keys, child);
      && (forall k :: k in keys ==> k in r && r[k] == Children(dirs, k) + [child])
      && (forall k :: k !in keys ==> (k in r <==> k in dirs) && Children(r, k) == Children(dirs, k))
    decreases |keys|
  {
    if keys != [] {
      var d1 := AppendChild(dirs, keys[0], child);
      AppendToAllEffect(d1, keys[1..], child);
      assert forall k :: k in keys[1..] ==> k != keys[0];
      assert forall k :: k in keys ==> k == keys[0] || k in keys[1..];
    }
  }

  /**
   * A file member's base name (its last element) is appended once to the list of each
   * enclosing directory, from the parent up to the root, creating lists that were
   * absent. Nothing is deduplicated.
   */
  lemma AddFileListed(z: ZipFS, m: Member)
    requires !m.header.IsDir()
    ensures var segs := Segments(m.header.name); var dirs' := AddMember(z, m).dirs;
      forall k :: k in AncestorKeys(segs) ==>
        k in dirs' && dirs'[k] == Children(z.dirs, k) + [Base(MemberName(m.header.name))]
  {
    var segs := Segments(m.header.name);
    MemberNameShape(m.header.name);
    AncestorKeysDistinct(segs);
    AppendToAllEffect(z.dirs, AncestorKeys(segs), Base(MemberName(m.header.name)));
    AddFileUnfold(z, m);
  }

  /**
   * A file member is stored under its cleaned name, replacing any earlier member of
   * that name, and leaves the list of every key that does not enclose it as it was.
   */
  lemma AddFileUntouched(z: ZipFS, m: Member)
    requires !m.header.IsDir()
    ensures AddMember(z, m).files == z.files[MemberName(m.header.name) := m]
    ensures var segs := Segments(m.header.name); var dirs' := AddMember(z, m).dirs;
      forall k :: k !in AncestorKeys(segs) ==>
        (k in dirs' <==> k in z.dirs) && Children(dirs', k) == Children(z.dirs, k)
  {
    var segs := Segments(m.header.name);
    MemberNameShape(m.header.name);
    AncestorKeysDistinct(segs);
    AppendToAllEffect(z.dirs, AncestorKeys(segs), Base(MemberName(m.header.name)));
    AddFileUnfold(z, m);
  }

  lemma AddFileUnfold(z: ZipFS, m: Member)
    requires !m.header.IsDir()
    ensures var name := MemberName(m.header.name);
      AddMember(z, m) == ZipFS(z.files[name := m], AppendToAll(z.dirs, AncestorKeys(Segments(m.header.name)), Base(name)))
  {
  }

  /** The base name of an indexed member is its last clean element, or "." when it has none. */
  lemma BaseOfMemberName(raw: string)
    ensures var segs := Segments(raw);
      Base(MemberName(raw)) == if segs == [] then "." else segs[|segs| - 1]
  {
    var segs := Segments(raw);
    MemberNameShape(raw);
    if segs != [] {
      BaseOfJoin(segs);
    } else {
      BaseOfDot();
    }
  }

  /**
   * A directory member whose cleaned elements are `segs` resets the list under its key
   * to empty, discarding children recorded by earlier members, and touches nothing else.
   */
  lemma AddDirEffect(z: ZipFS, m: Member)
    requires m.header.IsDir()
    requires Segments(m.header.name) != []
    ensures var z' := AddMember(z, m);
      && z'.files == z.files
      && z'.dirs == z.dirs[DirKey(Segments(m.header.name)) := []]
  {
    MemberNameShape(m.header.name);
    JoinShape(Segments(m.header.name));
  }

  /**
   * Member order matters: a directory member indexed after a file inside it wipes the
   * file from the directory's list, while the same members in the other order keep it.
   */
  lemma DirectoryMemberOrderMatters(z: ZipFS, f: Member, d: Member)
    requires !f.header.IsDir() && d.header.IsDir()
    requires |Segments(f.header.name)| >= 2
    requires Segments(d.header.name) == Segments(f.header.name)[..|Segments(f.header.name)| - 1]
    ensures var segs := Segments(f.header.name); var key := DirKey(segs[..|segs| - 1]);
      var fileFirst := AddMember(AddMember(z, f), d); var dirFirst := AddMember(AddMember(z, d), f);
      && key in fileFirst.dirs && fileFirst.dirs[key] == []
      && key in dirFirst.dirs && dirFirst.dirs[key] == [segs[|segs| - 1]]
  {
    var segs := Segments(f.header.name);
    var key := DirKey(segs[..|segs| - 1]);
    AddDirEffect(AddMember(z, f), d);
    var z1 := AddMember(z, d);
    AddDirEffect(z, d);
    assert key in z1.dirs && z1.dirs[key] == [];
    AddFileListed(z1, f);
    BaseOfMemberName(f.header.name);
    AncestorKeysAt(segs, 0);
  }

  /**
   * Shared ancestors accumulate repeated entries: two file members each append their
   * base name to the root's list, in archive order, even when the names are equal.
   */
  lemma RootListsEveryFile(z: ZipFS, f1: Member, f2: Member)
    requires !f1.header.IsDir() && !f2.header.IsDir()
    ensures var z2 := AddMember(AddMember(z, f1), f2);
      && "" in z2.dirs
      && z2.dirs[""] == Children(z.dirs, "") + [Base(MemberName(f1.header.name))] + [Base(MemberName(f2.header.name))]
  {
    RootAppend(z, f1);
    RootAppend(AddMember(z, f1), f2);
  }

  /** Every file member appends its base name to the root's list. */
  lemma RootAppend(z: ZipFS, f: Member)
    requires !f.header.IsDir()
    ensures var z' := AddMember(z, f);
      "" in z'.dirs && z'.dirs[""] == Children(z.dirs, "") + [Base(MemberName(f.header.name))]
  {
    RootIsAncestor(Segments(f.header.name));
    AddFileListed(z, f);
  }

  /** Every file member's walk ends at the root key. */
  lemma RootIsAncestor(segs: seq<string>)
    ensures "" in AncestorKeys(segs)
  {
    if |segs| > 0 {
      AncestorKeysAt(segs, |segs| - 1);
      assert segs[..0] == [];
    }
  }

  /**
   * The position of the last file member stored under `name`, or -1 when there is none:
   * the member that `files[name]` must hold.
   */
  function LastStored(members: seq<Member>, name: string): (i: int)
    ensures -1 <= i < |members|
    ensures i >= 0 ==> StoredAs(members[i], name)
  {
    if members == [] then -1
    else if StoredAs(members[|members| - 1], name) then |members| - 1
    else LastStored(members[..|members| - 1], name)
  }

  /** No member after the one LastStored finds is stored under the same name. */
  lemma {:induction false} LastStoredIsLast(members: seq<Member>, name: string, j: int)
    requires LastStored(members, name) < j < |members|
    ensures !StoredAs(members[j], name)
    decreases |members|
  {
    var n := |members|;
    if j < n - 1 {
      LastStoredIsLast(members[..n - 1], name, j);
      assert members[..n - 1][j] == members[j];
    }
  }

  /** One member adds its own name to `files` when it is a file, and nothing else. */
  lemma AddMemberFiles(z: ZipFS, m: Member, name: string)
    ensures name in AddMember(z, m).files <==> name in z.files || StoredAs(m, name)
    ensures name in AddMember(z, m).files ==>
      AddMember(z, m).files[name] == if StoredAs(m, name) then m else z.files[name]
  {
  }

  /**
   * `files` holds exactly the names of the file members, each mapped to the LAST file
   * member stored under it; directory members never appear in it.
   */
  lemma {:induction false} BuildFiles(members: seq<Member>, name: string)
    ensures name in Build(members).files <==> LastStored(members, name) >= 0
    ensures name in Build(members).files ==> Build(members).files[name] == members[LastStored(members, name)]
    decreases |members|
  {
    if members != [] {
      var init := members[..|members| - 1];
      BuildFiles(init, name);
      AddMemberFiles(Build(init), members[|members| - 1], name);
    }
  }

  /** Directory keys, once present, stay present as more members are indexed. */
  lemma {:induction false} DirKeysPersist(members: seq<Member>, n: nat)
    requires n <= |members|
    ensures Build(members[..n]).dirs.Keys <= Build(members).dirs.Keys
    decreases |members| - n
  {
    if n < |members| {
      var init := members[..|members| - 1];
      assert init[..n] == members[..n];
      DirKeysPersist(init, n);
      var last := members[|members| - 1];
      assert members == init + [last];
      if !last.header.IsDir() {
        AddFileListed(Build(init), last);
        AddFileUntouched(Build(init), last);
      }
    } else {
      assert members[..n] == members;
    }
  }

  /**
   * Every directory enclosing a file member — the root and each proper prefix of its
   * elements — has a key in the finished index, whatever members follow.
   */
  lemma AncestorsIndexed(members: seq<Member>, i: nat)
    requires i < |members| && !members[i].header.IsDir()
    ensures "" in Build(members).dirs
    ensures forall j :: 1 <= j < |Segments(members[i].header.name)| ==>
      Join(Segments(members[i].header.name)[..j]) + "/" in Build(members).dirs
  {
    var m := members[i];
    var segs := Segments(m.header.name);
    assert members[..i + 1][..i] == members[..i];
    assert Build(members[..i + 1]) == AddMember(Build(members[..i]), m);
    MemberNameShape(m.header.name);
    AncestorKeysCover(segs);
    AddFileListed(Build(members[..i]), m);
    DirKeysPersist(members, i + 1);
  }

  /** A file member stored under `name` is found by LastStored at its own position or later. */
  lemma {:induction false} LastStoredAtLeast(members: seq<Member>, name: string, i: nat)
    requires i < |members| && StoredAs(members[i], name)
    ensures LastStored(members, name) >= i
    decreases |members|
  {
    var n := |members|;
    if i < n - 1 && !StoredAs(members[n - 1], name) {
      assert members[..n - 1][i] == members[i];
      LastStoredAtLeast(members[..n - 1], name, i);
    }
  }

  /** Every entry of `files` is a file member stored under its own key. */
  lemma FilesAreFiles(members: seq<Member>)
    ensures forall name :: name in Build(members).files ==> StoredAs(Build(members).files[name], name)
  {
    forall name | name in Build(members).files
      ensures StoredAs(Build(members).files[name], name)
    {
      BuildFiles(members, name);
    }
  }
}
