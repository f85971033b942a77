/** `EmbeddedFileSystem`: the `FileSystem` implementation that serves the
    files of a decoded package. */
module EmbeddedFs {

  import opened Wrappers
  import opened Bytes
  import opened PackageFormat
  import opened PackageWriter
  import opened PackageRoundTrip
  import opened FileSystem

  datatype EmbeddedFileSystem = EmbeddedFileSystem(package: Package)

  /** `EmbeddedFileSystem::from_bytes`: the package decoded from `bytes`;
      the data region is everything after the eight-byte header and the
      `meta_len` bytes of records. */
  function FromBytes(bytes: seq<Byte>): (r: Result<EmbeddedFileSystem, PackageError>)
    ensures |bytes| < 8 ==> r == Failure(Truncated)
    ensures r.Success? <==> Decode(bytes).Success?
    ensures r.Success? ==> r.value.package == Decode(bytes).value
    ensures r.Success? ==> r.value.package.data == bytes[8 + BeValue(bytes[..8])..]
  {
    match Decode(bytes)
    case Failure(e) => Failure(e)
    case Success(pkg) => Success(EmbeddedFileSystem(pkg))
  }

  /** A container laid out as the writer lays it out (header, records,
      data) opens as the file system whose index holds the records, the
      last one for a path winning, and whose data region is the rest. */
  lemma FromContainer(rs: seq<Record>, data: seq<Byte>)
    requires AllEncodable(rs) && RecordsSize(rs) < U64_LIMIT
    ensures FromBytes(U64Bytes(RecordsSize(rs)) + EncodeRecords(rs) + data)
            == Success(EmbeddedFileSystem(Package(IndexOf(map[], rs), data)))
  {
    U64RoundTrip(RecordsSize(rs));
    DecodeAssembled(U64Bytes(RecordsSize(rs)), rs, data);
  }

  /** `is_file`: the path names an entry. A path is a file exactly when
      its size and modification time can be read. */
  predicate IsFile(fs: EmbeddedFileSystem, path: Str)
    ensures IsFile(fs, path) <==> Size(fs, path).Success? && LastModified(fs, path).Success?
  {
    path in fs.package.files
  }

  /** `path_valid`: the same test as `is_file`, so a valid path is always
      a file and every other path is rejected. */
  predicate PathValid(fs: EmbeddedFileSystem, path: Str)
    ensures PathValid(fs, path) <==> Size(fs, path).Success?
  {
    path in fs.package.files
  }

  /** The modification time, with no nanoseconds: the package stores whole
      seconds. */
  function LastModified(fs: EmbeddedFileSystem, path: Str): (r: Result<Time, FsError>)
    ensures path in fs.package.files ==> r == Success(Time(fs.package.files[path].lastModified, 0))
    ensures path !in fs.package.files ==> r == Failure(NoSuchFile)
    ensures r.Success? ==> r.value.nanos == 0
  {
    if path in fs.package.files then Success(Time(fs.package.files[path].lastModified, 0))
    else Failure(NoSuchFile)
  }

  /** `size`: the entry's length, which is the number of bytes
      `Package::open` hands back for the path. */
  function Size(fs: EmbeddedFileSystem, path: Str): (r: Result<nat, FsError>)
    ensures r.Success? <==> path in fs.package.files
    ensures path in fs.package.files && Fits(fs.package.files[path], |fs.package.data|) ==>
              r == Success(|PackageFormat.Open(fs.package, path).value|)
  {
    if path in fs.package.files then Success(fs.package.files[path].len) else Failure(NoSuchFile)
  }

  /** `open`: what a reader over the file yields, after seeking to `start`
      when one is given. Seeking past the end is allowed and leaves nothing
      to read. */
  function Open(fs: EmbeddedFileSystem, path: Str, start: Option<nat>): (r: Result<seq<Byte>, FsError>)
    requires path in fs.package.files ==> Fits(fs.package.files[path], |fs.package.data|)
    ensures path !in fs.package.files <==> r == Failure(NoSuchFile)
    ensures path in fs.package.files ==> r.Success?
    ensures r.Success? ==> |r.value| <= fs.package.files[path].len
    ensures r.Success? ==>
              var e := fs.package.files[path];
              var skip := if start.Some? && start.value < e.len then start.value else if start.Some? then e.len else 0;
              r.value == fs.package.data[e.start + skip .. e.start + e.len]
  {
    match PackageFormat.Open(fs.package, path)
    case Failure(_) => Failure(NoSuchFile)
    case Success(slice) =>
      var skip := if start.Some? && start.value < |slice| then start.value else if start.Some? then |slice| else 0;
      Success(slice[skip..])
  }

  /** `is_file` and `path_valid` give the same answer for every path. */
  lemma PathValidIsIsFile(fs: EmbeddedFileSystem, path: Str)
    ensures PathValid(fs, path) == IsFile(fs, path)
  {
  }

  /** The file system as the server sees it: a path is a file, and a
      valid one, exactly when the package indexes it; its size and
      modification time come from its entry; opening it yields the entry's
      slice of the data region from the requested offset on (nothing from
      the length on), and every other path is a `NoSuchFile` error. */
  function AsBackend(fs: EmbeddedFileSystem): (b: Backend)
    requires WellFormed(fs.package)
    ensures forall p :: b.isFile(p) == (p in fs.package.files) && b.pathValid(p) == (p in fs.package.files)
    ensures forall p :: b.size(p) == if p in fs.package.files then Success(fs.package.files[p].len) else Failure(NoSuchFile)
    ensures forall p :: b.lastModified(p) ==
              if p in fs.package.files then Success(Time(fs.package.files[p].lastModified, 0)) else Failure(NoSuchFile)
    ensures forall p, s | p !in fs.package.files :: b.open(p, s) == Failure(NoSuchFile)
    ensures forall p | p in fs.package.files :: b.open(p, None) ==
              Success(fs.package.data[fs.package.files[p].start .. fs.package.files[p].start + fs.package.files[p].len])
    ensures forall p, k: nat | p in fs.package.files :: b.open(p, Some(k)) ==
              var e := fs.package.files[p];
              Success(fs.package.data[e.start + (if k < e.len then k else e.len) .. e.start + e.len])
    ensures forall p :: b.isFile(p) == IsFile(fs, p) && b.pathValid(p) == PathValid(fs, p)
    ensures forall p :: b.size(p) == Size(fs, p) && b.lastModified(p) == LastModified(fs, p)
    ensures forall p, s :: b.open(p, s) == Open(fs, p, s)
  {
    Backend(
      p => IsFile(fs, p),
      p => LastModified(fs, p),
      p => Size(fs, p),
      (p, s) => Open(fs, p, s),
      p => PathValid(fs, p))
  }

  /** What the five methods answer for one enrolled file. */
  ghost predicate Serves(fs: EmbeddedFileSystem, f: FileInput)
    requires WellFormed(fs.package)
  {
    && IsFile(fs, f.path)
    && PathValid(fs, f.path)
    && Size(fs, f.path) == Success(|f.content|)
    && LastModified(fs, f.path) == Success(Time(f.lastModified, 0))
    && Open(fs, f.path, None) == Success(f.content)
    && forall k: nat :: Open(fs, f.path, Some(k)) == Success(if k < |f.content| then f.content[k..] else [])
  }

  /** The file system over a written package: every enrolled file is a file
      and valid path, with its size, modification time and contents, read in
      full or from any offset (empty from its length on); no other path is a
      file, and asking about one is a `NoSuchFile` error. */
  lemma WrittenFileSystem(files: seq<FileInput>)
    requires Writable(files) && DistinctPaths(files)
    ensures FromBytes(WritePackage(files)).Success?
    ensures var fs := FromBytes(WritePackage(files)).value;
            && WellFormed(fs.package)
            && (forall i | 0 <= i < |files| :: Serves(fs, files[i]))
            && (forall p | (forall i | 0 <= i < |files| :: files[i].path != p) ::
                  && !IsFile(fs, p) && !PathValid(fs, p)
                  && Size(fs, p) == Failure(NoSuchFile)
                  && LastModified(fs, p) == Failure(NoSuchFile)
                  && Open(fs, p, None) == Failure(NoSuchFile))
  {
    RoundTrip(files);
    var fs := FromBytes(WritePackage(files)).value;
    forall i | 0 <= i < |files| ensures Serves(fs, files[i]) {
      ServesEnrolled(fs, files[i]);
    }
  }

  /** A file whose entry the package holds, with its modification time and
      size, and whose bytes `Package::open` returns, is served in full. */
  lemma ServesEnrolled(fs: EmbeddedFileSystem, f: FileInput)
    requires WellFormed(fs.package)
    requires f.path in fs.package.files
    requires fs.package.files[f.path].lastModified == f.lastModified
    requires fs.package.files[f.path].len == |f.content|
    requires PackageFormat.Open(fs.package, f.path) == Success(f.content)
    ensures Serves(fs, f)
  {
    forall k: nat ensures Open(fs, f.path, Some(k)) == Success(if k < |f.content| then f.content[k..] else []) {
    }
  }
}
