/**
 * The handle the adapter's Open returns (zipHTTPFile). A directory handle carries the
 * records it still has to list; a file handle carries the member's whole content and
 * the cursor of the bytes.Reader it reads and seeks through. The reader is created
 * on first use at offset 0, which is the same as a cursor that starts at 0.
 *
 * Read and Seek follow Go's bytes.Reader: a read copies as many bytes as fit from the
 * cursor on and reports io.EOF once the cursor is at or past the end; a seek counts
 * from the start, the cursor or the end (whence 0, 1, 2), refuses any other whence
 * and any negative target, and may move past the end.
 */
module ZipHandle {
  import opened IoErrors
  import opened FileInfos
  import opened GoPath

  function Min(a: int, b: int): int {
    if a < b then a else b
  }

  // ---------------------------------------------------------------------------
  // bytes.Reader, as values
  // ---------------------------------------------------------------------------

  /** The bytes one Read with room for `room` bytes delivers from cursor `pos`. */
  function Chunk(data: seq<byte>, pos: nat, room: nat): seq<byte>
  {
    if pos >= |data| then [] else data[pos..pos + Min(room, |data| - pos)]
  }

  /** What bytes.Reader.Seek does with the cursor: moves it, or refuses with an error. */
  datatype Seeked = Moved(pos: nat) | Refused(err: Error)

  /**
   * bytes.Reader.Seek's target: counted from the start, the cursor or the end. Any
   * other whence is refused, and so is a negative target; a target past the end is
   * accepted.
   */
  function SeekTo(size: nat, cur: nat, offset: int, whence: int): (r: Seeked)
    ensures r.Refused? ==> r.err == InvalidWhence || r.err == NegativePosition
    ensures r == Refused(InvalidWhence) <==> whence !in {0, 1, 2}
    ensures r == Refused(NegativePosition) <==>
      whence in {0, 1, 2} && (if whence == 0 then 0 else if whence == 1 then cur else size) + offset < 0
    ensures whence == 0 && offset >= 0 ==> r == Moved(offset)
    ensures whence == 1 && cur + offset >= 0 ==> r == Moved(cur + offset)
    ensures whence == 2 && size + offset >= 0 ==> r == Moved(size + offset)
  {
    if whence != 0 && whence != 1 && whence != 2 then Refused(InvalidWhence)
    else
      var from := if whence == 0 then 0 else if whence == 1 then cur else size;
      if from + offset < 0 then Refused(NegativePosition) else Moved(from + offset)
  }

  /**
   * Two reads in a row deliver what one read with the room of both would: reading
   * never skips or repeats a byte.
   */
  lemma ReadsConcatenate(data: seq<byte>, pos: nat, a: nat, b: nat)
    ensures Chunk(data, pos, a) + Chunk(data, pos + |Chunk(data, pos, a)|, b) == Chunk(data, pos, a + b)
  {
    var first := Chunk(data, pos, a);
    if pos >= |data| {
      assert first == [] && Chunk(data, pos, b) == [] && Chunk(data, pos, a + b) == [];
    } else if a < |data| - pos {
      ReadsWithinRest(data, pos, a, b);
      assert pos + |first| == pos + a;
    } else {
      ReadsPastRest(data, pos, a, b);
      assert pos + |first| == |data|;
    }
  }

  /** A first read that stops short of the end leaves the second read to go on from there. */
  lemma ReadsWithinRest(data: seq<byte>, pos: nat, a: nat, b: nat)
    requires pos < |data| && a < |data| - pos
    ensures |Chunk(data, pos, a)| == a
    ensures Chunk(data, pos, a) + Chunk(data, pos + a, b) == Chunk(data, pos, a + b)
  {
    var next := pos + a;
    var end := next + Min(b, |data| - next);
    assert Chunk(data, pos, a) == data[pos..next];
    assert Chunk(data, next, b) == data[next..end];
    assert Min(a + b, |data| - pos) == a + Min(b, |data| - next);
    assert Chunk(data, pos, a + b) == data[pos..end];
    SlicesJoin(data, pos, next, end);
  }

  /** A first read that reaches the end leaves nothing for the second. */
  lemma ReadsPastRest(data: seq<byte>, pos: nat, a: nat, b: nat)
    requires pos < |data| && a >= |data| - pos
    ensures Chunk(data, pos, a) == data[pos..] == Chunk(data, pos, a + b)
    ensures Chunk(data, |data|, b) == []
  {
  }

  lemma SlicesJoin(s: seq<byte>, i: nat, j: nat, k: nat)
    requires i <= j <= k <= |s|
    ensures s[i..j] + s[j..k] == s[i..k]
  {
  }

  /** The bytes a caller collects by reading with room `room` until io.EOF. */
  function ReadToEnd(data: seq<byte>, pos: nat, room: nat): seq<byte>
    requires room > 0
    decreases |data| - pos
  {
    if pos >= |data| then [] else
      var c := Chunk(data, pos, room);
      c + ReadToEnd(data, pos + |c|, room)
  }

  /**
   * Reading until io.EOF, with any non-empty buffer, delivers exactly the content
   * from the cursor to the end, in order.
   */
  lemma {:induction false} ReadToEndIsRest(data: seq<byte>, pos: nat, room: nat)
    requires room > 0 && pos <= |data|
    ensures ReadToEnd(data, pos, room) == data[pos..]
    decreases |data| - pos
  {
    if pos < |data| {
      var c := Chunk(data, pos, room);
      ReadToEndIsRest(data, pos + |c|, room);
      assert data[pos..] == c + data[pos + |c|..];
    }
  }

  /**
   * Seeking to offset o from the start (whence 0) and then reading with room for the
   * rest delivers the content from o on; seeking to the end, or past it, is allowed and
   * leaves nothing to read.
   */
  lemma SeekThenRead(data: seq<byte>, cur: nat, o: int, room: nat)
    requires 0 <= o && room >= |data| - o
    ensures SeekTo(|data|, cur, o, 0) == Moved(o)
    ensures o <= |data| ==> Chunk(data, o, room) == data[o..]
    ensures o >= |data| ==> Chunk(data, o, room) == []
    ensures SeekTo(|data|, cur, 0, 2) == Moved(|data|)
  {
  }

  // ---------------------------------------------------------------------------
  // Readdir, as values
  // ---------------------------------------------------------------------------

  /**
   * The records Readdir(count) returns from the remaining `entries`, and what remains
   * after it: everything, left in place, when count <= 0 or count covers the rest;
   * otherwise the first count records, which are consumed.
   */
  function ReaddirPage(entries: seq<FileInfo>, count: int): (page: (seq<FileInfo>, seq<FileInfo>))
    ensures 0 < count < |entries| ==> page.0 + page.1 == entries && |page.0| == count
    ensures !(0 < count < |entries|) ==> page.0 == entries && page.1 == entries
  {
    if count <= 0 || count >= |entries| then (entries, entries)
    else (entries[..count], entries[count..])
  }

  /** The records a caller collects from k successive Readdir(count) calls. */
  function ReaddirCalls(entries: seq<FileInfo>, count: int, k: nat): seq<FileInfo>
  {
    if k == 0 then []
    else
      var page := ReaddirPage(entries, count);
      page.0 + ReaddirCalls(page.1, count, k - 1)
  }

  // ---------------------------------------------------------------------------
  // The handle
  // ---------------------------------------------------------------------------

  class ZipHTTPFile {
    const isDir: bool
    /** "" for the root, the directory key for a directory, the base name for a file. */
    const name: string
    /** The member's content, read in full when the file was opened. */
    const data: seq<byte>
    /** The member's header record; Open always sets it for a file. */
    const fi: Option<FileInfo>
    /** The cursor of the bytes.Reader over `data`. */
    var pos: nat
    /** The directory records not yet handed out by Readdir. */
    var entries: seq<FileInfo>
    /** The directory records the handle was opened with. */
    ghost const listing: seq<FileInfo>

    /** Readdir only ever drops records from the front of the listing. */
    ghost predicate Valid()
      reads this
    {
      |entries| <= |listing| && entries == listing[|listing| - |entries|..]
    }

    constructor (isDir: bool, name: string, data: seq<byte>, fi: Option<FileInfo>, entries: seq<FileInfo>)
      ensures this.isDir == isDir && this.name == name && this.data == data && this.fi == fi
      ensures this.entries == entries && listing == entries && pos == 0
      ensures Valid()
    {
      this.isDir := isDir;
      this.name := name;
      this.data := data;
      this.fi := fi;
      this.entries := entries;
      this.listing := entries;
      this.pos := 0;
    }

    /** Close releases nothing and never fails. */
    method Close() returns (err: Option<Error>)
      ensures err == None
    {
      err := None;
    }

    /**
     * Read: io.EOF on a directory and at or past the end of the content; otherwise
     * the next bytes from the cursor, as many as fit into p, and the cursor moves past
     * them. The rest of p is left alone.
     */
    method Read(p: array<byte>) returns (n: nat, err: Option<Error>)
      modifies this`pos, p
      ensures isDir || old(pos) >= |data| ==>
        n == 0 && err == Some(EOF) && pos == old(pos) && p[..] == old(p[..])
      ensures !isDir && old(pos) < |data| ==>
        && err == None
        && n <= p.Length
        && p[..n] == Chunk(data, old(pos), p.Length)
        && p[n..] == old(p[n..])
        && pos == old(pos) + n
    {
      if isDir {
        return 0, Some(EOF);
      }
      if pos >= |data| {
        return 0, Some(EOF);
      }
      n := Min(p.Length, |data| - pos);
      forall i | 0 <= i < n {
        p[i] := data[pos + i];
      }
      pos := pos + n;
      err := None;
    }

    /**
     * Seek: io.EOF on a directory; otherwise the cursor moves to the target SeekTo
     * computes and the target is returned, or the cursor stays and the error is
     * returned with position 0.
     */
    method Seek(offset: int, whence: int) returns (abs: int, err: Option<Error>)
      modifies this`pos
      ensures isDir ==> abs == 0 && err == Some(EOF) && pos == old(pos)
      ensures !isDir && SeekTo(|data|, old(pos), offset, whence).Moved? ==>
        abs == pos == SeekTo(|data|, old(pos), offset, whence).pos && err == None
      ensures !isDir && SeekTo(|data|, old(pos), offset, whence).Refused? ==>
        abs == 0 && pos == old(pos) && err == Some(SeekTo(|data|, old(pos), offset, whence).err)
    {
      if isDir {
        return 0, Some(EOF);
      }
      var from: int;
      if whence == 0 {
        from := 0;
      } else if whence == 1 {
        from := pos;
      } else if whence == 2 {
        from := |data|;
      } else {
        return 0, Some(InvalidWhence);
      }
      if from + offset < 0 {
        return 0, Some(NegativePosition);
      }
      pos := from + offset;
      abs := pos;
      err := None;
    }

    /**
     * Readdir: os.ErrInvalid on a file; on a directory the page ReaddirPage gives,
     * keeping what it leaves as the remaining records.
     */
    method Readdir(count: int) returns (res: seq<FileInfo>, err: Option<Error>)
      requires Valid()
      modifies this`entries
      ensures Valid()
      ensures !isDir ==> res == [] && err == Some(ErrInvalid) && entries == old(entries)
      ensures isDir ==> err == None && (res, entries) == ReaddirPage(old(entries), count)
    {
      if !isDir {
        return [], Some(ErrInvalid);
      }
      if count <= 0 || count >= |entries| {
        return entries, None;
      }
      res := entries[..count];
      entries := entries[count..];
      err := None;
    }

    /**
     * Stat: a directory reports a synthetic directory record named after the last
     * element of its key ("." for the root); a file reports its header record, or a
     * synthetic file record of its content's size when it has none.
     */
    function Stat(): (info: FileInfo)
      reads this
      ensures isDir ==> info == SyntheticDir(Base(TrimSuffix(name, "/")))
      ensures !isDir && fi.Some? ==> info == fi.value
      ensures !isDir && fi.None? ==>
        info.ZipFileInfo? && !info.IsDir() && info.Name() == name && info.Size() == |data| &&
        info.ModTime() == ZeroTime && info.Mode() == 0x124
    {
      if isDir then ZipFileInfo(Base(TrimSuffix(name, "/")), true, ZeroTime, 0)
      else if fi.Some? then fi.value
      else ZipFileInfo(name, false, ZeroTime, |data|)
    }
  }
}
