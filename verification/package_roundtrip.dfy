/** What `Package::from_bytes` recovers from the bytes `write_package` emits. */
module PackageRoundTrip {

  import opened Wrappers
  import opened Bytes
  import opened Utf8
  import opened PackageFormat
  import opened PackageWriter

  /** The written container decodes to the index of the records written for
      the sorted files, over their concatenated contents. */
  lemma DecodeWritten(files: seq<FileInput>)
    requires Writable(files)
    ensures var s := SortByPath(files);
            Decode(WritePackage(files)) == Success(Package(IndexOf(map[], RecordsFrom(s, 0)), DataRegion(s)))
  {
    var s := SortByPath(files);
    SortWritable(files);
    RecordsEncodable(s, 0);
    U64RoundTrip(MetaLen(s));
    DecodeAssembled(U64Bytes(MetaLen(s)), RecordsFrom(s, 0), DataRegion(s));
  }

  /** The records of a list with distinct paths have distinct paths. */
  lemma RecordPathsDistinct(s: seq<FileInput>)
    requires DistinctPaths(s)
    ensures var rs := RecordsFrom(s, 0);
            forall i, j | 0 <= i < j < |rs| :: rs[i].path != rs[j].path
  {
    var rs := RecordsFrom(s, 0);
    forall i, j | 0 <= i < j < |rs| ensures rs[i].path != rs[j].path {
      RecordAt(s, 0, i);
      RecordAt(s, 0, j);
    }
  }

  /** The package decoded from the sorted files' container maps each of those
      files' paths to that file's record. */
  lemma SortedIndex(s: seq<FileInput>, pkg: Package)
    requires DistinctPaths(s)
    requires pkg == Package(IndexOf(map[], RecordsFrom(s, 0)), DataRegion(s))
    ensures pkg.files.Keys == set i | 0 <= i < |s| :: s[i].path
    ensures forall i | 0 <= i < |s| :: pkg.files[s[i].path] == EntryOf(RecordsFrom(s, 0)[i])
  {
    var rs := RecordsFrom(s, 0);
    RecordPathsDistinct(s);
    IndexOfDistinct(rs);
    RecordPaths(s);
  }

  lemma RecordPaths(s: seq<FileInput>)
    ensures var rs := RecordsFrom(s, 0);
            (set i | 0 <= i < |rs| :: rs[i].path) == set i | 0 <= i < |s| :: s[i].path
  {
    var rs := RecordsFrom(s, 0);
    forall i | 0 <= i < |s| ensures rs[i].path == s[i].path {
      RecordAt(s, 0, i);
    }
  }

  /** File `i` of the sorted list: its entry has its mtime and size, lies
      inside the data region, and `Package::open` returns its bytes. */
  lemma SortedEntry(s: seq<FileInput>, pkg: Package, i: nat)
    requires i < |s|
    requires pkg.data == DataRegion(s)
    requires s[i].path in pkg.files && pkg.files[s[i].path] == EntryOf(RecordsFrom(s, 0)[i])
    ensures Fits(pkg.files[s[i].path], |pkg.data|)
    ensures pkg.files[s[i].path].lastModified == s[i].lastModified
    ensures pkg.files[s[i].path].len == |s[i].content|
    ensures Open(pkg, s[i].path) == Success(s[i].content)
  {
    RecordLocatesContent(s, i);
  }

  /** The facts about the package, stated for the sorted list, carry over to
      the list as given, which holds the same files. */
  lemma FromSorted(files: seq<FileInput>, s: seq<FileInput>, pkg: Package)
    requires multiset(s) == multiset(files)
    requires pkg.files.Keys == set i | 0 <= i < |s| :: s[i].path
    requires WellFormed(pkg)
    requires forall i | 0 <= i < |s| ::
               && pkg.files[s[i].path].lastModified == s[i].lastModified
               && pkg.files[s[i].path].len == |s[i].content|
               && Open(pkg, s[i].path) == Success(s[i].content)
    ensures pkg.files.Keys == set i | 0 <= i < |files| :: files[i].path
    ensures forall i | 0 <= i < |files| ::
              && files[i].path in pkg.files
              && pkg.files[files[i].path].lastModified == files[i].lastModified
              && pkg.files[files[i].path].len == |files[i].content|
              && Open(pkg, files[i].path) == Success(files[i].content)
  {
    forall i | 0 <= i < |files|
      ensures files[i].path in pkg.files
      ensures pkg.files[files[i].path].lastModified == files[i].lastModified
      ensures pkg.files[files[i].path].len == |files[i].content|
      ensures Open(pkg, files[i].path) == Success(files[i].content)
    {
      assert files[i] in multiset(s);
      var j :| 0 <= j < |s| && s[j] == files[i];
    }
    forall p | p in pkg.files ensures p in set i | 0 <= i < |files| :: files[i].path {
      var j :| 0 <= j < |s| && s[j].path == p;
      assert s[j] in multiset(files);
      var i :| 0 <= i < |files| && files[i] == s[j];
    }
  }

  /** The round trip, for distinct paths: the decoded package holds exactly
      the enrolled paths, each with its modification time and size, every
      entry lies inside the data region, and opening a path yields exactly
      that file's contents. */
  lemma RoundTrip(files: seq<FileInput>)
    requires Writable(files) && DistinctPaths(files)
    ensures Decode(WritePackage(files)).Success?
    ensures var pkg := Decode(WritePackage(files)).value;
            && WellFormed(pkg)
            && pkg.files.Keys == (set i | 0 <= i < |files| :: files[i].path)
            && forall i | 0 <= i < |files| ::
                 && files[i].path in pkg.files
                 && pkg.files[files[i].path].lastModified == files[i].lastModified
                 && pkg.files[files[i].path].len == |files[i].content|
                 && Open(pkg, files[i].path) == Success(files[i].content)
  {
    var s := SortByPath(files);
    SortDistinct(files);
    DecodeWritten(files);
    var pkg := Package(IndexOf(map[], RecordsFrom(s, 0)), DataRegion(s));
    SortedIndex(s, pkg);
    forall i | 0 <= i < |s|
      ensures Fits(pkg.files[s[i].path], |pkg.data|)
      ensures pkg.files[s[i].path].lastModified == s[i].lastModified
      ensures pkg.files[s[i].path].len == |s[i].content|
      ensures Open(pkg, s[i].path) == Success(s[i].content)
    {
      SortedEntry(s, pkg, i);
    }
    assert WellFormed(pkg);
    FromSorted(files, s, pkg);
  }

  /** Two files of the written package occupy disjoint byte ranges of the
      data region. */
  lemma WrittenEntriesDisjoint(files: seq<FileInput>, p: Str, q: Str)
    requires Writable(files) && DistinctPaths(files)
    ensures Decode(WritePackage(files)).Success?
    ensures var f := Decode(WritePackage(files)).value.files;
            p in f && q in f && p != q ==>
              f[p].start + f[p].len <= f[q].start || f[q].start + f[q].len <= f[p].start
  {
    var s := SortByPath(files);
    SortDistinct(files);
    DecodeWritten(files);
    var pkg := Decode(WritePackage(files)).value;
    SortedIndex(s, pkg);
    if p in pkg.files && q in pkg.files && p != q {
      var i :| 0 <= i < |s| && s[i].path == p;
      var j :| 0 <= j < |s| && s[j].path == q;
      if i < j {
        RecordsInOrder(s, i, j);
      } else {
        RecordsInOrder(s, j, i);
      }
    }
  }

  /** The output depends only on which files are enrolled, not on the order
      they are listed in. */
  lemma WriteOrderIndependent(a: seq<FileInput>, b: seq<FileInput>)
    requires Writable(a) && DistinctPaths(a)
    requires multiset(a) == multiset(b)
    ensures Writable(b)
    ensures WritePackage(a) == WritePackage(b)
  {
    SortByPathSorted(a);
    SortByPathSorted(b);
    SortDistinct(a);
    SortedUnique(SortByPath(a), SortByPath(b));
    SortSums(a);
    SortSums(b);
    forall i | 0 <= i < |b| ensures ValidUtf8(b[i].path) && |b[i].path| < I64_LIMIT && IsI64(b[i].lastModified) {
      assert b[i] in multiset(a);
    }
  }

  /** The header holds `meta_len`, exactly the bytes the records occupy, and
      the data region follows at offset `meta_len + 8`. */
  lemma WrittenHeader(files: seq<FileInput>)
    requires Writable(files)
    ensures var out := WritePackage(files);
            && 8 + MetaLen(files) <= |out|
            && BeValue(out[..8]) == MetaLen(files)
            && out[8 + MetaLen(files)..] == DataRegion(SortByPath(files))
  {
    var s := SortByPath(files);
    SortWritable(files);
    SortSums(files);
    RecordsEncodable(s, 0);
    var h, e, d := U64Bytes(MetaLen(s)), EncodeRecords(RecordsFrom(s, 0)), DataRegion(s);
    assert WritePackage(files) == h + e + d;
    ThreePieces(h, e, d);
    U64RoundTrip(MetaLen(s));
  }

  /** The first and last of three concatenated pieces sit at its two ends. */
  lemma ThreePieces(h: seq<Byte>, e: seq<Byte>, d: seq<Byte>)
    ensures (h + e + d)[..|h|] == h && (h + e + d)[|h| + |e|..] == d
  {
  }

  /** "hello.txt", "inner/other.txt", and "Hello World!", as bytes. */
  const HELLO_PATH: Str := [104, 101, 108, 108, 111, 46, 116, 120, 116]
  const OTHER_PATH: Str := [105, 110, 110, 101, 114, 47, 111, 116, 104, 101, 114, 46, 116, 120, 116]
  const HELLO_CONTENT: seq<Byte> := [72, 101, 108, 108, 111, 32, 87, 111, 114, 108, 100, 33]

  /** The source's read-back test, over whatever else the test directory
      holds: a package enrolling `hello.txt` with "Hello World!" and
      `inner/other.txt` has both paths, and `hello.txt` reads back with
      length 12 and exactly those bytes. */
  lemma HelloWorldReadsBack(files: seq<FileInput>, helloTime: int)
    requires Writable(files) && DistinctPaths(files)
    requires FileInput(HELLO_PATH, helloTime, HELLO_CONTENT) in files
    requires exists f | f in files :: f.path == OTHER_PATH
    ensures var r := Decode(WritePackage(files));
            && r.Success?
            && WellFormed(r.value)
            && HELLO_PATH in r.value.files && OTHER_PATH in r.value.files
            && r.value.files[HELLO_PATH].len == 12
            && Open(r.value, HELLO_PATH) == Success(HELLO_CONTENT)
  {
    RoundTrip(files);
    var i :| 0 <= i < |files| && files[i] == FileInput(HELLO_PATH, helloTime, HELLO_CONTENT);
    var f :| f in files && f.path == OTHER_PATH;
    var j :| 0 <= j < |files| && files[j] == f;
  }
}
