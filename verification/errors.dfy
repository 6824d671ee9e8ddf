/** The optional values and error values the archive adapter hands back to its callers. */
module IoErrors {

  datatype Option<+T> = None | Some(value: T)

  /** The errors the adapter returns, by the Go value it returns for each. */
  datatype Error =
    | ErrNotExist        // os.ErrNotExist: Open of a name that is neither a file nor a directory
    | ErrInvalid         // os.ErrInvalid: Readdir on a file handle
    | EOF                // io.EOF: end of data, and Read/Seek on a directory handle
    | InvalidWhence      // bytes.Reader.Seek with a whence other than 0, 1 or 2
    | NegativePosition   // bytes.Reader.Seek to a position before the start
    | MemberUnreadable   // the archive member could not be opened or decompressed
}
