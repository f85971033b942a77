/** The `FileSystem` trait the server reads files through, as a record of
    functions: whatever backend serves the files, the decision logic only
    sees these five answers. */
module FileSystem {

  import opened Wrappers
  import opened Bytes

  const NANOS_PER_SECOND: nat := 1_000_000_000

  type Nanos = n: int | 0 <= n < NANOS_PER_SECOND

  /** A `SystemTime`: whole seconds since the epoch, rounded down, and the
      nanoseconds past them. */
  datatype Time = Time(secs: int, nanos: Nanos)

  /** Any error a backend reports (`Box<Error>`); only its presence matters. */
  datatype FsError = NoSuchFile | IoError

  /** `is_file`, `last_modified`, `size`, `open` (the bytes from the optional
      start offset to the end of the file) and `path_valid`. */
  datatype Backend = Backend(
    isFile: Str -> bool,
    lastModified: Str -> Result<Time, FsError>,
    size: Str -> Result<nat, FsError>,
    open: (Str, Option<nat>) -> Result<seq<Byte>, FsError>,
    pathValid: Str -> bool)
}
