# Zip archive as an HTTP file system — a Dafny model

supervisord can serve its web UI out of a zip archive. `assets.go` adapts the
archive to Go's `http.FileSystem`:

- `newZipFS` makes one pass over the archive's flat member list. It builds `files`,
  which maps a cleaned member name to the member. It also builds `dirs`, which maps a
  directory key to the child names recorded for it. The root key is `""`; every other
  key ends in `/`.
- `zipFS.Open` cleans a request name. It returns a directory handle for the root, a
  file handle holding the whole content of a stored member, or a directory handle
  for a known directory key. Otherwise it returns `os.ErrNotExist`.
- `dirEntries` turns a directory's child names into the records a listing shows.
- `zipHTTPFile` is the handle. A file handle reads and seeks through its content with
  a `bytes.Reader` cursor. A directory handle pages through its records with
  `Readdir`. `Stat` describes the handle.

Modules:

- `IoErrors` (errors.dfy): `Option` and the error values the adapter returns.
- `GoPath` (gopath.dfy): the parts of Go's `strings` and `path` packages that the
  adapter uses. `path.Clean` is built from `strings.Split`, a left-to-right scan that
  resolves `.` and `..`, and `strings.Join`. Lemmas state the facts the adapter relies on.
- `FileInfos` (fileinfo.dfy): member headers, the `os.FileInfo` records, and `zipFileInfo`.
- `ZipIndex` (zipindex.dfy): `Build`, the index specified member by member, and the
  loop `NewZipFS`, proved to compute it.
- `ZipHandle` (ziphandle.dfy): the class `ZipHTTPFile` with its fields, `Read`, `Seek`,
  `Readdir`, `Stat` and `Close`. It also holds value-level versions of the reader
  cursor and of `Readdir`.
- `ZipOpen` (zipopen.dfy): `Resolve`, which specifies `Open` branch by branch, plus
  `Open`, `DirEntries`, and lemmas about which names open as what.
- `ZipFindings` (zipfindings.dfy): the three findings below. Each has the as-written
  behaviour and a corrected definition with its property proved.

The model follows the code at these points, which a reader of the surrounding
comments might expect to behave otherwise:

- A directory member sets its key's list to empty, even when the key already has
  children recorded (assets.go:73).
- The walk over enclosing directories appends the file's own base name to each of
  them and never deduplicates (assets.go:90).
- A `Readdir` that returns every remaining record leaves them in place, so the next
  call returns them again (assets.go:201-202).
- `Read` and `Seek` on a directory handle return `(0, io.EOF)` (assets.go:175-177,
  185-187).
- A name ending in `/` opens a directory handle whether or not the key exists
  (assets.go:113-116). That branch is unreachable, because a cleaned name never
  ends in `/` (`ZipOpen.OpenNameShape`).

## Model

| member | source | states |
|---|---|---|
| ZipIndex.NewZipFS | assets.go:64-101 | the index the member loop builds is exactly `Build(members)`, the member-by-member specification |
| ZipIndex.IndexMember | assets.go:66-98 | one iteration of the member loop turns the index into `AddMember` of the old index and that member |
| ZipIndex.RecordAncestors | assets.go:78-98 | the ancestor walk terminates and appends the file's base name once under each key of `AncestorKeys`, from the parent up to the root |
| ZipIndex.AncestorKeys | assets.go:78-98 | the walk visits one key for a top-level member and otherwise one key per element |
| ZipIndex.AncestorKeysAt | assets.go:78-98 | the i-th key visited is the key of the member's first n-1-i elements, so the walk goes from the parent upward and ends at the root |
| ZipIndex.AncestorKeysCover | assets.go:78-98 | the root and the key of every proper prefix of the member's elements are visited |
| ZipIndex.AncestorKeysOnly | assets.go:83-90 | no other key is visited, and every non-root key ends in `/` |
| ZipIndex.AncestorKeysDistinct | assets.go:82-98 | no key is visited twice for one member |
| ZipIndex.MemberNameShape | assets.go:67-69 | a member is indexed under its joined clean elements, or under `.` or `""` when it has none |
| ZipIndex.BaseOfMemberName | assets.go:90 | the base name appended is the member's last clean element |
| ZipIndex.AddFileListed | assets.go:76-98 | a file member's base name is appended once to the list of every enclosing directory, creating absent lists, without deduplication |
| ZipIndex.AddFileUntouched | assets.go:76-98 | a file member is stored under its name, replacing any earlier one, and every key that does not enclose it keeps its list |
| ZipIndex.AddDirEffect | assets.go:70-74 | a directory member resets its key's list to empty, discarding earlier children, and changes nothing else |
| ZipIndex.DirectoryMemberOrderMatters | assets.go:70-98 | a directory member after a file inside it empties the directory's list; in the other order the file stays listed |
| ZipIndex.RootListsEveryFile | assets.go:90 | two file members each append their base name to the root's list, in archive order, even when the names are equal |
| ZipIndex.RootAppend | assets.go:90 | every file member appends its base name to the root's list |
| ZipIndex.LastStored | assets.go:76 | the reference answer for `files`: the last file member stored under a name, or -1 |
| ZipIndex.LastStoredIsLast | assets.go:76 | no later member is stored under the same name |
| ZipIndex.LastStoredAtLeast | assets.go:76 | a file member is found at its own position or at a later one |
| ZipIndex.BuildFiles | assets.go:67-76 | `files` holds exactly the names of file members, each mapped to the last file member with that name (last write wins) |
| ZipIndex.FilesAreFiles | assets.go:70-76 | every entry of `files` is a file member stored under its own key; directory members never appear |
| ZipIndex.DirKeysPersist | assets.go:66-99 | once a directory key is present, it stays present as later members are indexed |
| ZipIndex.AncestorsIndexed | assets.go:78-98 | every directory enclosing a file member has a key in the finished index |
| ZipHandle.SeekTo | assets.go:184-191 | `bytes.Reader.Seek` moves to `offset`, `cur + offset` or `size + offset` for whence 0, 1 or 2. It fails with "invalid whence" exactly when whence is none of these, and with "negative position" exactly when the target is negative. A target at or past the end is accepted |
| ZipHandle.ReadsConcatenate | assets.go:174-182 | two reads in a row deliver what one read with the room of both would; no byte is skipped or repeated |
| ZipHandle.ReadToEndIsRest | assets.go:174-182 | reading until `io.EOF` with any non-empty buffer delivers exactly the content from the cursor to the end |
| ZipHandle.SeekThenRead | assets.go:184-191 | after a seek from the start, a read gets the content from that offset; seeking to or past the end is allowed and leaves nothing to read |
| ZipHandle.ReaddirPage | assets.go:201-206 | a count below the remaining number splits the records into a page of that size and the rest; any other count returns everything and keeps it |
| ZipHandle.ZipHTTPFile.constructor | assets.go:163-170 | a new handle holds its fields, lists everything, and starts its cursor at 0 (the lazily created reader starts at offset 0) |
| ZipHandle.ZipHTTPFile.Close | assets.go:172 | closing never fails |
| ZipHandle.ZipHTTPFile.Read | assets.go:174-182 | on a directory, or at or past the end: `(0, io.EOF)` and nothing changes; otherwise the next bytes from the cursor, as many as fit, are copied, the rest of the buffer is untouched, and the cursor advances past them |
| ZipHandle.ZipHTTPFile.Seek | assets.go:184-192 | on a directory: `(0, io.EOF)`; otherwise the cursor moves to the `SeekTo` target and returns it, or stays put and returns the error |
| ZipHandle.ZipHTTPFile.Readdir | assets.go:194-207 | on a file: `os.ErrInvalid`; on a directory: the `ReaddirPage` page, with the rest kept; the remaining records are always a suffix of the listing |
| ZipHandle.ZipHTTPFile.Stat | assets.go:209-217 | a directory reports a synthetic directory named by the base of its key; a file reports its header record, or else a synthetic file record named by the handle, of its content's size, with the zero time and mode 0444 |
| FileInfos.FileInfo.Name | assets.go:226 | a `zipFileInfo` reports its own name; a header record reports the base of the member's name, which is never empty and holds no `/` unless it is `/` |
| FileInfos.FileInfo.Size | assets.go:227 | a `zipFileInfo` reports its own size; a header record reports the header's size |
| FileInfos.FileInfo.ModTime | assets.go:229 | a `zipFileInfo` reports its own time; a header record reports the header's modification time |
| FileInfos.FileInfo.IsDir | assets.go:230 | a `zipFileInfo` reports its own flag; a header record reports whether the header's mode has the directory bit |
| FileInfos.SyntheticDir | assets.go:157 | the record made for a child with no stored file is a directory of the given name, size 0, the zero time, and mode directory plus 0555 |
| FileInfos.FileInfo.Mode | assets.go:228 | the directory bit is set exactly for directories; a synthetic record has permissions 0555 for a directory and 0444 for a file, and no other bits |
| ZipOpen.Resolve | assets.go:103-141 | what `Open` finds for a name: a found file is in `files`, and a found directory key ends in `/` |
| ZipOpen.Open | assets.go:103-141 | follows `Resolve`. The root and directory keys get a fresh directory handle over their listing. A stored file gets a fresh file handle named by its base name, holding the content and header, or the read error. Any other name gets `os.ErrNotExist` |
| ZipOpen.DirEntries | assets.go:143-161 | returns the `Listing` of a key: one record per recorded child name, in recorded order, and an empty list for an absent key |
| ZipOpen.EntriesOf | assets.go:149-159 | one record per child name |
| ZipOpen.EntriesAt | assets.go:149-159 | the i-th record is the file header stored under the i-th child's full name, or a synthetic directory named after the child |
| ZipOpen.OpenName | assets.go:105-106 | the name `Open` looks up never starts with `/` |
| ZipOpen.ChildPath | assets.go:151 | the full name a child is looked up under never starts with `/` |
| ZipOpen.EntryInfo | assets.go:151-157 | a child with a file stored under its full name gets that header's name base, size, time and directory flag; any other child gets a directory record named after the child, of size 0 and the zero time |
| ZipOpen.EntryIsDirIff | assets.go:151-157 | in a built index, a listed record reports a directory exactly when no file is stored under the child's full name |
| ZipOpen.OpenNameIsMemberName | assets.go:105-106 | a request name is looked up under the same name a member of that name is indexed under (assets.go:67-69) |
| ZipOpen.OpenNameShape | assets.go:105-116 | the looked-up name is the joined clean elements, or `.` or `""`, and never ends in `/`, so the trailing-slash branch is never taken |
| ZipOpen.RootIff | assets.go:105-110 | a name opens the root exactly when nothing is left of it after cleaning (`/`, `.`, `a/..`), even in an empty archive |
| ZipOpen.SameElementsSameTarget | assets.go:105-106 | names with the same clean elements (`a/b`, `/a/b`, `./a//b/`) open the same thing |
| ZipOpen.StoredFileOpens | assets.go:119-131 | a file member opens under its own name as a regular file holding the last member stored under that name |
| ZipOpen.EnclosingDirectoryOpens | assets.go:119-138 | every directory enclosing a file member opens by its joined name, as that directory, or as a file when a file has the same name |
| ZipOpen.DirectoryMemberOpens | assets.go:134-138 | a directory member opens as a directory under its own name unless a file member has the same name |
| ZipOpen.DirectoryMemberIndexed | assets.go:70-74 | a directory member's key is present in the finished index |
| ZipOpen.DirectoryStatName | assets.go:210-211 | a directory handle's `Stat` names it by the last element of its key, and the root by `.` |
| GoPath.TrimPrefixRemoves | assets.go:68-69 | `strings.TrimPrefix` removes the prefix when present and otherwise returns the string unchanged |
| GoPath.TrimSuffixRemoves | assets.go:72 | `strings.TrimSuffix` removes the suffix when present and otherwise returns the string unchanged |
| GoPath.CleanNoTrailingSlash | assets.go:105-116 | `path.Clean` never ends in `/` except for `/` itself |
| GoPath.SegmentsClean | assets.go:67 | the elements `path.Clean` keeps are never empty, `.` or slash-bearing; `..` occurs only in a leading run, and never in a rooted name |
| GoPath.CleanOfJoin | assets.go:151 | joining clean elements gives a name `path.Clean` leaves unchanged, and that splits back into the same elements |
| GoPath.DirOfJoin | assets.go:78-97 | `path.Dir` of joined clean elements drops the last element, giving `.` for one element |
| GoPath.BaseOfJoin | assets.go:90 | `path.Base` of joined clean elements is the last element |
| ZipFindings.PhantomRootEntry | assets.go:90 | as written: for a single member `a/b` (two or more elements, first differs from last), the root lists the last element, shows it as a synthetic directory, and opening it finds nothing |
| ZipFindings.AsWrittenNotNavigable | assets.go:90 | as written, the index of such an archive lists a child that does not open |
| ZipFindings.BuildIntendedNavigable | assets.go:78-98 | with the intended walk, every child listed under every key opens |
| ZipFindings.AddIntendedKeepsNavigable | assets.go:70-98 | the intended member step keeps every listed child openable |
| ZipFindings.ReaddirRepeats | assets.go:201-202 | as written, with a positive count that covers the remaining records, k calls return the listing k times over, record for record, with no error and no empty page |
| ZipFindings.ReaddirIntended | assets.go:194-207 | intended paging: a call's page and rest together make up the records; a positive count below the remaining number gives a page of that size; any other count leaves no rest; `io.EOF` comes exactly for a positive count with no records left |
| ZipFindings.PageThroughIsListing | assets.go:194-207 | with the intended paging, calling until `io.EOF` delivers every record exactly once, in order, for any count |
| ZipFindings.ExhaustedIsEmpty | assets.go:201-202 | with the intended paging, a call whose positive count covers the remaining records returns them all, and the next call returns an empty page with `io.EOF` |
| ZipFindings.AddIntendedKeepsListed | assets.go:70-74 | with the intended directory step, no member removes a listed child: keys stay, lists only grow at the end |

## Left out

- `init()` (assets.go:21-57) is left out. It picks the archive from the environment, opens files, reads the zip directory, and falls back to embedded or on-disk assets. All of that is configuration and I/O.
- The zip reader is not modelled. The archive is the list of its members, in archive order.
- Decompression is not modelled: `f.Open`, `io.Copy`, and `rc.Close` at assets.go:120-130. A member's content is a given `Option<seq<byte>>`. `None` stands for a failed open or copy, and `Open` returns `MemberUnreadable` for it.
- `time.Time` is an opaque stamp. The zero time is one fixed value.
- The header internals of `FileHeader.FileInfo()` are not modelled. A header record reports the header's own name base, size, time, and mode.
- `Sys()` (assets.go:231) always returns nil, so it is not modelled.
- `bytes.Reader` is not part of this model. Its `Read` and `Seek` are written out from the Go standard library's documented behaviour. Rune state, `ReadAt`, and the other methods are left out.
- ZipHandle.ZipHTTPFile.Seek: offsets and positions are unbounded integers. The 64-bit overflow of `cur + offset` in Go is not modelled.
- ZipHandle.ZipHTTPFile.Readdir: the `entries == nil` branch (assets.go:198-200) is not modelled. `dirEntries` always returns a non-nil slice, and re-slicing never yields nil. Nil and empty slices are both the empty sequence.
- ZipHandle.ZipHTTPFile.Readdir: the page returned shares storage with the handle's remaining records. The covering branch (assets.go:202) returns the handle's own `f.entries`, and `f.entries[:count]` (assets.go:204) keeps the capacity that covers the rest. A caller's writes into the page, or appends to it, would change what the next `Readdir` returns. The model returns values, so those writes are not modelled.
- ZipHandle.ZipHTTPFile.Read: a Go slice is an `array`. Aliasing between the buffer and the handle's content cannot arise, because the content is a value.
- The handle and `Stat` return `os.FileInfo` interface values. Here they are one `FileInfo` datatype with a case for header records and a case for `zipFileInfo`.
- The corrected definitions in `ZipFindings` sit beside the as-written model and are proved there. `NewZipFS`, `Open`, and the handle keep the behaviour of the code as written.

## Findings

| source | as written | input that shows it | evidently intended | confidence | as-written member | corrected member |
|---|---|---|---|---|---|---|
| assets.go:90 | every enclosing directory, the root included, gets the file's base name `path.Base(name)` appended | an archive with the single file member `a/b`: the root lists `b`, the listing shows `b` as a directory, and opening `b` gives `os.ErrNotExist` | each enclosing directory lists the next element on the way down (`a` under the root, `b` under `a/`), so every child a listing shows can be opened by its listed name | high; not executed | ZipFindings.PhantomRootEntry | ZipFindings.BuildIntendedNavigable |
| assets.go:201-202 | `Readdir(count)` with `count >= len(entries)` returns the entries without consuming them | `Readdir(10)` called repeatedly on a directory with three entries returns the same three records every time and never an empty page | as Go's `os.File.Readdir` does for `n > 0`, returned records are consumed and a call with none left returns `io.EOF`, so paging delivers the listing once and then stops | medium; not executed | ZipFindings.ReaddirRepeats | ZipFindings.PageThroughIsListing |
| assets.go:73 | a directory member sets its key's list to empty | the members `a/b` (file) then `a/` (directory): the listing of `a/` is empty although `a/b` opens | the index stays consistent whatever the member order: with `a/b` then `a/`, `Open("a/b")` finds the file and `Open("a")` gives the directory, so that directory's listing should show `b`, as it does in the other order. A directory member creates its key when absent and keeps children already recorded | medium; not executed | ZipIndex.DirectoryMemberOrderMatters | ZipFindings.AddIntendedKeepsListed |
