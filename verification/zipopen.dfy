/**
 * The adapter's http.FileSystem side: Open resolves a request name against the
 * index and hands out a fresh handle; dirEntries turns a directory's recorded child
 * names into the records a listing shows.
 *
 * Resolve is the specification of Open's branches; Open is proved to follow it, and
 * the lemmas below say which names resolve to what.
 */
module ZipOpen {
  import opened IoErrors
  import opened FileInfos
  import opened GoPath
  import opened ZipIndex
  import opened ZipHandle

  /** The name Open looks up: cleaned, without a leading '/'. */
  function OpenName(name: string): (n: string)
    ensures !HasPrefix(n, "/")
  {
    TrimmedCleanIsRelative(name);
    TrimPrefix(Clean(name), "/")
  }

  /** What Open finds for a request name. */
  datatype Target = Root | Directory(key: string) | RegularFile(name: string) | NotExist

  /**
   * Open's branches in order: the root for "." and ""; a directory for a name ending
   * in '/'; a stored file; a directory key that is present; otherwise nothing.
   */
  function Resolve(z: ZipFS, name: string): (t: Target)
    ensures t.RegularFile? ==> t.name in z.files
    ensures t.Directory? ==> HasSuffix(t.key, "/")
  {
    var n := OpenName(name);
    var key := TrimSuffix(n, "/") + "/";
    assert HasSuffix(key, "/");
    if n == "." || n == "" then Root
    else if HasSuffix(n, "/") then Directory(key)
    else if n in z.files then RegularFile(n)
    else if key in z.dirs then Directory(key)
    else NotExist
  }

  // ---------------------------------------------------------------------------
  // dirEntries
  // ---------------------------------------------------------------------------

  /** The full name dirEntries looks up for child `n` of the directory with key `key`. */
  function ChildPath(key: string, n: string): (full: string)
    ensures !HasPrefix(full, "/")
  {
    var dir := TrimSuffix(key, "/");
    TrimmedCleanIsRelative(if dir == "" then n else dir + "/" + n);
    TrimPrefix(JoinPath(dir, n), "/")
  }

  /**
   * The record a listing shows for child `n`: the header of the file stored under the
   * child's full name, or else a synthetic directory named `n`.
   */
  function EntryInfo(z: ZipFS, key: string, n: string): (info: FileInfo)
    ensures ChildPath(key, n) !in z.files ==>
      info.IsDir() && info.Name() == n && info.Size() == 0 && info.ModTime() == ZeroTime
    ensures ChildPath(key, n) in z.files ==>
      var h := z.files[ChildPath(key, n)].header;
      info.Name() == Base(h.name) && info.Size() == h.size && info.ModTime() == h.modified
      && info.IsDir() == h.IsDir()
  {
    var full := ChildPath(key, n);
    if full in z.files then HeaderInfo(z.files[full].header) else SyntheticDir(n)
  }

  /** One record per name, in order. */
  function EntriesOf(z: ZipFS, key: string, names: seq<string>): (infos: seq<FileInfo>)
    ensures |infos| == |names|
  {
    if names == [] then []
    else EntriesOf(z, key, names[..|names| - 1]) + [EntryInfo(z, key, names[|names| - 1])]
  }

  /** The listing of the directory with key `key`: empty when the key is absent. */
  function Listing(z: ZipFS, key: string): seq<FileInfo>
  {
    EntriesOf(z, key, Children(z.dirs, key))
  }

  /** dirEntries: one record per recorded child name, in recorded order. */
  method DirEntries(z: ZipFS, key: string) returns (res: seq<FileInfo>)
    ensures res == Listing(z, key)
    ensures |res| == |Children(z.dirs, key)|
    ensures key !in z.dirs ==> res == []
  {
    res := [];
    if key !in z.dirs {
      return;
    }
    var names := z.dirs[key];
    var i := 0;
    while i < |names|
      invariant 0 <= i <= |names|
      invariant res == EntriesOf(z, key, names[..i])
    {
      var n := names[i];
      EntriesSnoc(z, key, names, i);
      var full := TrimPrefix(JoinPath(TrimSuffix(key, "/"), n), "/");
      if full in z.files {
        res := res + [HeaderInfo(z.files[full].header)];
      } else {
        res := res + [ZipFileInfo(n, true, ZeroTime, 0)];
      }
      i := i + 1;
    }
    assert names[..i] == names;
  }

  lemma EntriesSnoc(z: ZipFS, key: string, names: seq<string>, i: nat)
    requires i < |names|
    ensures EntriesOf(z, key, names[..i + 1]) == EntriesOf(z, key, names[..i]) + [EntryInfo(z, key, names[i])]
  {
    assert names[..i + 1][..i] == names[..i];
  }

  /** Each record of a listing is the EntryInfo of the child name at the same place. */
  lemma {:induction false} EntriesAt(z: ZipFS, key: string, names: seq<string>, i: nat)
    requires i < |names|
    ensures EntriesOf(z, key, names)[i] == EntryInfo(z, key, names[i])
    decreases |names|
  {
    if i < |names| - 1 {
      EntriesAt(z, key, names[..|names| - 1], i);
    }
  }

  /**
   * In an index built from members, a listed record reports a directory exactly when
   * no file is stored under the child's full name.
   */
  lemma EntryIsDirIff(members: seq<Member>, key: string, n: string)
    ensures EntryInfo(Build(members), key, n).IsDir() <==> ChildPath(key, n) !in Build(members).files
  {
    FilesAreFiles(members);
  }

  // ---------------------------------------------------------------------------
  // Open
  // ---------------------------------------------------------------------------

  /**
   * Open: a directory handle over the listing for the root and for directory keys; a
   * file handle over the member's whole content, named by its base name, for a stored
   * file; the member's read failure when its content cannot be read; ErrNotExist
   * otherwise. Every handle is new and positioned at the start.
   */
  method Open(z: ZipFS, name: string) returns (f: ZipHTTPFile?, err: Option<Error>)
    ensures (f != null) == err.None?
    ensures f != null ==> fresh(f) && f.Valid() && f.pos == 0
    ensures match Resolve(z, name)
      case Root => f != null && f.isDir && f.name == "" && f.entries == Listing(z, "")
      case Directory(key) => f != null && f.isDir && f.name == key && f.entries == Listing(z, key)
      case RegularFile(n) =>
        if z.files[n].content.None? then err == Some(MemberUnreadable)
        else
          && f != null && !f.isDir && f.name == Base(n) && f.entries == []
          && f.data == z.files[n].content.value && f.fi == Some(HeaderInfo(z.files[n].header))
      case NotExist => err == Some(ErrNotExist)
  {
    var n := Clean(name);
    n := TrimPrefix(n, "/");
    if n == "." || n == "" {
      var entries := DirEntries(z, "");
      f := new ZipHTTPFile(true, "", [], None, entries);
      return f, None;
    }
    if HasSuffix(n, "/") {
      var key := TrimSuffix(n, "/") + "/";
      var entries := DirEntries(z, key);
      f := new ZipHTTPFile(true, key, [], None, entries);
      return f, None;
    }
    if n in z.files {
      var m := z.files[n];
      if m.content.None? {
        return null, Some(MemberUnreadable);
      }
      f := new ZipHTTPFile(false, Base(n), m.content.value, Some(HeaderInfo(m.header)), []);
      return f, None;
    }
    var key := TrimSuffix(n, "/") + "/";
    if key in z.dirs {
      var entries := DirEntries(z, key);
      f := new ZipHTTPFile(true, key, [], None, entries);
      return f, None;
    }
    return null, Some(ErrNotExist);
  }

  // ---------------------------------------------------------------------------
  // Which names resolve to what
  // ---------------------------------------------------------------------------

  /** A request name is looked up under the same name its member would be indexed under. */
  lemma OpenNameIsMemberName(name: string)
    ensures OpenName(name) == MemberName(name)
  {
    MemberNameShape(name);
    var segs := Segments(name);
    if Rooted(name) {
      TrimPrefixRemoves(Clean(name), "/");
    } else if segs != [] {
      JoinShape(segs);
    }
  }

  /**
   * The looked-up name is the joined clean elements of the request name, or "." / ""
   * when it has none; it never ends in '/', so Open's trailing-slash branch is never
   * taken.
   */
  lemma OpenNameShape(name: string)
    ensures var segs := Segments(name);
      && (segs == [] ==> OpenName(name) == "." || OpenName(name) == "")
      && (segs != [] ==> OpenName(name) == Join(segs) && OpenName(name) != "." && OpenName(name) != "")
    ensures !HasSuffix(OpenName(name), "/")
  {
    OpenNameIsMemberName(name);
    MemberNameShape(name);
    var segs := Segments(name);
    if segs != [] {
      JoinShape(segs);
    }
  }

  /** A name opens the root exactly when it has no elements left after cleaning ("/", ".", "a/.."). */
  lemma RootIff(z: ZipFS, name: string)
    ensures Resolve(z, name) == Root <==> Segments(name) == []
  {
    OpenNameShape(name);
  }

  /**
   * Names with the same clean elements ("a/b", "/a/b", "./a//b/", "a/c/../b") open the
   * same thing.
   */
  lemma SameElementsSameTarget(z: ZipFS, a: string, b: string)
    requires Segments(a) == Segments(b)
    ensures Resolve(z, a) == Resolve(z, b)
  {
    OpenNameShape(a);
    OpenNameShape(b);
  }

  /**
   * A file member with at least one element opens, under its own name, as a regular
   * file holding the last file member stored under that name.
   */
  lemma StoredFileOpens(members: seq<Member>, i: nat)
    requires i < |members| && !members[i].header.IsDir()
    requires Segments(members[i].header.name) != []
    ensures var n := MemberName(members[i].header.name);
      && Resolve(Build(members), members[i].header.name) == RegularFile(n)
      && LastStored(members, n) >= i
      && Build(members).files[n] == members[LastStored(members, n)]
  {
    var raw := members[i].header.name;
    var n := MemberName(raw);
    LastStoredAtLeast(members, n, i);
    BuildFiles(members, n);
    OpenNameIsMemberName(raw);
    OpenNameShape(raw);
  }

  /**
   * Every directory enclosing a file member opens, under its joined elements, as that
   * directory (or as a file, when a file member has the same name).
   */
  lemma EnclosingDirectoryOpens(members: seq<Member>, i: nat, j: nat)
    requires i < |members| && !members[i].header.IsDir()
    requires 1 <= j < |Segments(members[i].header.name)|
    ensures var segs := Segments(members[i].header.name); var d := Join(segs[..j]);
      var t := Resolve(Build(members), d);
      t == Directory(d + "/") || t == RegularFile(d)
  {
    var segs := Segments(members[i].header.name);
    var d := Join(segs[..j]);
    AncestorsIndexed(members, i);
    MemberNameShape(members[i].header.name);
    CleanPrefix(segs, j);
    OpenOfJoin(segs[..j]);
  }

  /** Open looks a joined clean name up as itself. */
  lemma OpenOfJoin(segs: seq<string>)
    requires |segs| >= 1 && CleanSegments(segs, false)
    ensures var d := Join(segs);
      OpenName(d) == d && d != "." && d != "" && TrimSuffix(d, "/") + "/" == d + "/"
  {
    CleanOfJoin(segs);
    JoinShape(segs);
    OpenNameShape(Join(segs));
  }

  /**
   * A directory member with at least one element opens as a directory under its own
   * name, unless some file member is stored under that name as well.
   */
  lemma DirectoryMemberOpens(members: seq<Member>, i: nat)
    requires i < |members| && members[i].header.IsDir()
    requires Segments(members[i].header.name) != []
    requires LastStored(members, Join(Segments(members[i].header.name))) < 0
    ensures var segs := Segments(members[i].header.name);
      Resolve(Build(members), members[i].header.name) == Directory(DirKey(segs))
  {
    var segs := Segments(members[i].header.name);
    DirectoryMemberIndexed(members, i);
    BuildFiles(members, Join(segs));
    OpenNameShape(members[i].header.name);
    OpenOfJoin(segs);
  }

  /** A directory member's key is present in the finished index, whatever members follow. */
  lemma DirectoryMemberIndexed(members: seq<Member>, i: nat)
    requires i < |members| && members[i].header.IsDir()
    requires Segments(members[i].header.name) != []
    ensures CleanSegments(Segments(members[i].header.name), false)
    ensures DirKey(Segments(members[i].header.name)) in Build(members).dirs
  {
    MemberNameShape(members[i].header.name);
    BuildSnoc(members, i);
    DirMemberAddsKey(Build(members[..i]), members[i]);
    DirKeysPersist(members, i + 1);
  }

  lemma DirMemberAddsKey(z: ZipFS, m: Member)
    requires m.header.IsDir() && Segments(m.header.name) != []
    ensures DirKey(Segments(m.header.name)) in AddMember(z, m).dirs
  {
    AddDirEffect(z, m);
  }

  /**
   * The name a directory handle's Stat reports: the last element of its key, and "."
   * for the root.
   */
  lemma DirectoryStatName(segs: seq<string>)
    requires CleanSegments(segs, false)
    ensures Base(TrimSuffix(DirKey(segs), "/")) == if segs == [] then "." else segs[|segs| - 1]
  {
    if segs != [] {
      TrimSuffixRemoves(DirKey(segs), "/");
      BaseOfJoin(segs);
    }
  }
}
