/**
 * Archive member headers and the metadata records (os.FileInfo values) the adapter
 * hands out: either the record zip derives from a member's header, or a zipFileInfo
 * the adapter synthesises for directories.
 */
module FileInfos {
  import opened IoErrors
  import GoPath

  newtype byte = x: int | 0 <= x < 256

  /** A modification time; only its identity matters here. */
  datatype Time = Time(stamp: int)

  /** time.Time{}, the zero time given to synthetic records. */
  const ZeroTime: Time := Time(0)

  /** os.FileMode, a 32-bit word of type and permission bits. */
  type FileMode = bv32

  /** os.ModeDir, the top bit of a FileMode. */
  const ModeDir: FileMode := 0x8000_0000

  /** The permission bits, 0777 in octal. */
  const ModePerm: FileMode := 0x1FF

  /** What the archive's directory records about one member. */
  datatype FileHeader = FileHeader(name: string, size: int, modified: Time, mode: FileMode)
  {
    /** FileInfo().IsDir(): the directory bit of the member's mode. */
    predicate IsDir() {
      mode & ModeDir != 0
    }
  }

  /**
   * An archive member: its header and the outcome of opening and decompressing it in
   * full (None when the archive reader reports an error).
   */
  datatype Member = Member(header: FileHeader, content: Option<seq<byte>>)

  datatype FileInfo =
    | HeaderInfo(header: FileHeader)                                // a member's FileHeader.FileInfo()
    | ZipFileInfo(name: string, isDir: bool, modTime: Time, size: int)   // a synthetic zipFileInfo
  {
    /** A synthetic record's name; for a header record, path.Base of the member's name. */
    function Name(): (r: string)
      ensures ZipFileInfo? ==> r == name
      ensures HeaderInfo? ==> r == GoPath.Base(header.name) && r != "" && (r == "/" || '/' !in r)
    {
      match this
      case HeaderInfo(h) => GoPath.BaseIsElement(h.name); GoPath.Base(h.name)
      case ZipFileInfo(n, _, _, _) => n
    }

    /** The size the record was built with, or the member's uncompressed size. */
    function Size(): (r: int)
      ensures ZipFileInfo? ==> r == size
      ensures HeaderInfo? ==> r == header.size
    {
      match this
      case HeaderInfo(h) => h.size
      case ZipFileInfo(_, _, _, s) => s
    }

    /** The time the record was built with, or the member's modification time. */
    function ModTime(): (r: Time)
      ensures ZipFileInfo? ==> r == modTime
      ensures HeaderInfo? ==> r == header.modified
    {
      match this
      case HeaderInfo(h) => h.modified
      case ZipFileInfo(_, _, t, _) => t
    }

    /** The flag the record was built with, or the directory bit of the member's mode. */
    function IsDir(): (r: bool)
      ensures ZipFileInfo? ==> r == isDir
      ensures HeaderInfo? ==> r == (header.mode & ModeDir != 0)
    {
      match this
      case HeaderInfo(h) => h.IsDir()
      case ZipFileInfo(_, d, _, _) => d
    }

    /**
     * The mode: a synthetic directory is ModeDir|0555, a synthetic file 0444; a header
     * record carries the member's own mode.
     */
    function Mode(): (m: FileMode)
      ensures (m & ModeDir != 0) == IsDir()
      ensures ZipFileInfo? ==> m & ModePerm == (if isDir then 0x16D else 0x124)
      ensures ZipFileInfo? ==> m & !(ModeDir | ModePerm) == 0
    {
      match this
      case HeaderInfo(h) => h.mode
      case ZipFileInfo(_, d, _, _) => if d then ModeDir | 0x16D else 0x124
    }
  }

  /** The record synthesised for a directory that has no header of its own. */
  function SyntheticDir(name: string): (fi: FileInfo)
    ensures fi.Name() == name && fi.IsDir() && fi.Size() == 0 && fi.ModTime() == ZeroTime
    ensures fi.Mode() == ModeDir | 0x16D
  {
    ZipFileInfo(name, true, ZeroTime, 0)
  }
}
