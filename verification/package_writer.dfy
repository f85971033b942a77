/** `write_package`: sorts the file list, then writes the header, one record
    per file and the files' bytes back to back. The file system reads of the
    source (metadata and contents) are inputs here. */
module PackageWriter {

  import opened Bytes
  import opened Utf8
  import opened PathOrder
  import opened PackageFormat

  /** One file to enrol: its relative path, modification time in epoch
      seconds and contents (whose length is the size the source reads from
      the file's metadata). */
  datatype FileInput = FileInput(path: Str, lastModified: int, content: seq<Byte>)

  // ---------------------------------------------------------------------
  // `files.sort()`
  // ---------------------------------------------------------------------

  predicate Sorted(fs: seq<FileInput>) {
    forall i, j | 0 <= i < j < |fs| :: LexLe(fs[i].path, fs[j].path)
  }

  predicate DistinctPaths(fs: seq<FileInput>) {
    forall i, j | 0 <= i < j < |fs| :: fs[i].path != fs[j].path
  }

  /** Puts `x` before the first element it does not sort after. */
  function Insert(x: FileInput, fs: seq<FileInput>): (r: seq<FileInput>)
    ensures multiset(r) == multiset(fs) + multiset{x}
  {
    if |fs| == 0 || LexLe(x.path, fs[0].path) then [x] + fs
    else
      assert fs == [fs[0]] + fs[1..];
      [fs[0]] + Insert(x, fs[1..])
  }

  /** A stable insertion sort by path. */
  function SortByPath(fs: seq<FileInput>): (r: seq<FileInput>)
    ensures multiset(r) == multiset(fs)
  {
    if |fs| == 0 then []
    else
      assert fs == [fs[0]] + fs[1..];
      Insert(fs[0], SortByPath(fs[1..]))
  }

  lemma {:induction false} InsertSorted(x: FileInput, fs: seq<FileInput>)
    requires Sorted(fs)
    ensures Sorted(Insert(x, fs))
  {
    if |fs| == 0 || LexLe(x.path, fs[0].path) {
      ConsSorted(x, fs);
    } else {
      LexLeTotal(x.path, fs[0].path);
      InsertSorted(x, fs[1..]);
      var rest := Insert(x, fs[1..]);
      forall e | e in rest ensures LexLe(fs[0].path, e.path) {
        assert e in multiset(rest);
        if e != x {
          assert e in multiset(fs[1..]);
          var m :| 0 <= m < |fs[1..]| && fs[1..][m] == e;
          assert fs[m + 1] == e;
        }
      }
      ConsSorted(fs[0], rest);
    }
  }

  /** A sorted list stays sorted with an element in front that comes no
      later than its first one, and so no later than any. */
  lemma ConsSorted(y: FileInput, fs: seq<FileInput>)
    requires Sorted(fs)
    requires (|fs| > 0 ==> LexLe(y.path, fs[0].path)) || forall e | e in fs :: LexLe(y.path, e.path)
    ensures Sorted([y] + fs)
  {
    var r := [y] + fs;
    forall i, j | 0 <= i < j < |r| ensures LexLe(r[i].path, r[j].path) {
      if i == 0 {
        if j > 1 && LexLe(y.path, fs[0].path) {
          LexLeTransitive(y.path, fs[0].path, fs[j - 1].path);
        }
        assert r[j] == fs[j - 1] && r[j] in fs;
      } else {
        assert r[i] == fs[i - 1] && r[j] == fs[j - 1];
      }
    }
  }

  /** The sort yields its input's elements in the byte order of the paths. */
  lemma {:induction false} SortByPathSorted(fs: seq<FileInput>)
    ensures Sorted(SortByPath(fs))
  {
    if |fs| > 0 {
      SortByPathSorted(fs[1..]);
      InsertSorted(fs[0], SortByPath(fs[1..]));
    }
  }

  lemma {:induction false} InsertDistinct(x: FileInput, fs: seq<FileInput>)
    requires DistinctPaths(fs)
    requires forall k | 0 <= k < |fs| :: fs[k].path != x.path
    ensures DistinctPaths(Insert(x, fs))
  {
    if |fs| > 0 && !LexLe(x.path, fs[0].path) {
      InsertDistinct(x, fs[1..]);
      var rest := Insert(x, fs[1..]);
      forall k | 0 <= k < |rest| ensures rest[k].path != fs[0].path {
        assert rest[k] in multiset(rest);
        if rest[k] != x {
          var m :| 0 <= m < |fs[1..]| && fs[1..][m] == rest[k];
          assert fs[m + 1] == rest[k];
        }
      }
    }
  }

  /** Sorting keeps paths distinct. */
  lemma {:induction false} SortDistinct(fs: seq<FileInput>)
    requires DistinctPaths(fs)
    ensures DistinctPaths(SortByPath(fs))
  {
    if |fs| > 0 {
      SortDistinct(fs[1..]);
      var rest := SortByPath(fs[1..]);
      forall k | 0 <= k < |rest| ensures rest[k].path != fs[0].path {
        assert rest[k] in multiset(fs[1..]);
        var m :| 0 <= m < |fs[1..]| && fs[1..][m] == rest[k];
        assert fs[m + 1] == rest[k];
      }
      InsertDistinct(fs[0], rest);
    }
  }

  lemma SortedTail(a: seq<FileInput>)
    requires Sorted(a) && DistinctPaths(a) && 0 < |a|
    ensures Sorted(a[1..]) && DistinctPaths(a[1..])
  {
    forall i, j | 0 <= i < j < |a[1..]| ensures LexLe(a[1..][i].path, a[1..][j].path) && a[1..][i].path != a[1..][j].path {
      assert a[1..][i] == a[i + 1] && a[1..][j] == a[j + 1];
    }
  }

  lemma MultisetTail(a: seq<FileInput>, b: seq<FileInput>)
    requires 0 < |a| && 0 < |b| && a[0] == b[0]
    requires multiset(a) == multiset(b)
    ensures multiset(a[1..]) == multiset(b[1..])
  {
    assert a == [a[0]] + a[1..];
    assert b == [b[0]] + b[1..];
    assert multiset(a) == multiset{a[0]} + multiset(a[1..]);
    assert multiset(b) == multiset{b[0]} + multiset(b[1..]);
    assert multiset(a[1..]) == multiset(a) - multiset{a[0]};
    assert multiset(b[1..]) == multiset(b) - multiset{b[0]};
  }

  /** Both lists start with the element whose path sorts first. */
  lemma SameHead(a: seq<FileInput>, b: seq<FileInput>)
    requires Sorted(a) && Sorted(b) && DistinctPaths(a)
    requires multiset(a) == multiset(b) && 0 < |a|
    ensures 0 < |b| && a[0] == b[0]
  {
    assert a[0] in multiset(b);
    var j :| 0 <= j < |b| && b[j] == a[0];
    assert b[0] in multiset(a);
    var i :| 0 <= i < |a| && a[i] == b[0];
    if i > 0 { assert LexLe(a[0].path, a[i].path); } else { LexLeReflexive(a[0].path); }
    if j > 0 { assert LexLe(b[0].path, b[j].path); } else { LexLeReflexive(b[0].path); }
    LexLeAntisymmetric(a[0].path, b[0].path);
  }

  /** Two sorted lists with the same elements and distinct paths are equal:
      the sorted order is unique. */
  lemma {:induction false} SortedUnique(a: seq<FileInput>, b: seq<FileInput>)
    requires Sorted(a) && Sorted(b) && DistinctPaths(a)
    requires multiset(a) == multiset(b)
    ensures a == b
  {
    if |a| == 0 {
      assert |multiset(b)| == 0;
    } else {
      SameHead(a, b);
      MultisetTail(a, b);
      SortedTail(a);
      assert Sorted(b[1..]) by {
        forall i, j | 0 <= i < j < |b[1..]| ensures LexLe(b[1..][i].path, b[1..][j].path) {
          assert b[1..][i] == b[i + 1] && b[1..][j] == b[j + 1];
        }
      }
      SortedUnique(a[1..], b[1..]);
      assert a == [a[0]] + a[1..];
      assert b == [b[0]] + b[1..];
    }
  }

  // ---------------------------------------------------------------------
  // Layout
  // ---------------------------------------------------------------------

  /** `meta_len`: 32 bytes plus the path for every file. */
  function MetaLen(fs: seq<FileInput>): nat {
    if |fs| == 0 then 0 else RECORD_FIXED + |fs[0].path| + MetaLen(fs[1..])
  }

  /** The files' bytes back to back, in list order. */
  function DataRegion(fs: seq<FileInput>): seq<Byte> {
    if |fs| == 0 then [] else fs[0].content + DataRegion(fs[1..])
  }

  /** The records the writer emits: `start` is the running offset `offset`
      plus the sizes of the files before. */
  function RecordsFrom(fs: seq<FileInput>, offset: nat): (rs: seq<Record>)
    ensures |rs| == |fs|
  {
    if |fs| == 0 then []
    else [Record(fs[0].path, fs[0].lastModified, |fs[0].content|, offset)]
         + RecordsFrom(fs[1..], offset + |fs[0].content|)
  }

  /** The conditions under which the source does not overflow or panic:
      UTF-8 paths (a Rust `str` always is), an `i64` mtime, and `meta_len`
      and the data size within `u64`. */
  predicate Writable(fs: seq<FileInput>) {
    && (forall i | 0 <= i < |fs| :: ValidUtf8(fs[i].path) && |fs[i].path| < I64_LIMIT && IsI64(fs[i].lastModified))
    && MetaLen(fs) < U64_LIMIT
    && |DataRegion(fs)| < U64_LIMIT
  }

  lemma {:induction false} RecordsEncodable(fs: seq<FileInput>, offset: nat)
    requires forall i | 0 <= i < |fs| :: ValidUtf8(fs[i].path) && |fs[i].path| < I64_LIMIT && IsI64(fs[i].lastModified)
    requires offset + |DataRegion(fs)| < U64_LIMIT
    ensures AllEncodable(RecordsFrom(fs, offset))
    ensures RecordsSize(RecordsFrom(fs, offset)) == MetaLen(fs)
  {
    if |fs| > 0 {
      RecordsEncodable(fs[1..], offset + |fs[0].content|);
      var rs := RecordsFrom(fs, offset);
      assert rs[1..] == RecordsFrom(fs[1..], offset + |fs[0].content|);
    }
  }

  /** `write_package` on files already read: an eight-byte header holding
      the records' total size, one record per file, then every file's
      bytes, so the container is as long as the two regions plus the
      header, whatever order the files came in. */
  function WritePackage(files: seq<FileInput>): (out: seq<Byte>)
    requires Writable(files)
    ensures |out| == 8 + MetaLen(files) + |DataRegion(files)|
  {
    var sorted := SortByPath(files);
    SortWritable(files);
    SortSums(files);
    RecordsEncodable(sorted, 0);
    U64Bytes(MetaLen(sorted)) + EncodeRecords(RecordsFrom(sorted, 0)) + DataRegion(sorted)
  }

  // ---------------------------------------------------------------------
  // Sorting changes no sum
  // ---------------------------------------------------------------------

  lemma {:induction false} InsertSums(x: FileInput, fs: seq<FileInput>)
    ensures MetaLen(Insert(x, fs)) == MetaLen(fs) + RECORD_FIXED + |x.path|
    ensures |DataRegion(Insert(x, fs))| == |DataRegion(fs)| + |x.content|
  {
    if |fs| > 0 && !LexLe(x.path, fs[0].path) {
      InsertSums(x, fs[1..]);
      var r := Insert(x, fs);
      assert r[1..] == Insert(x, fs[1..]);
    }
  }

  lemma {:induction false} SortSums(fs: seq<FileInput>)
    ensures MetaLen(SortByPath(fs)) == MetaLen(fs)
    ensures |DataRegion(SortByPath(fs))| == |DataRegion(fs)|
  {
    if |fs| > 0 {
      SortSums(fs[1..]);
      InsertSums(fs[0], SortByPath(fs[1..]));
    }
  }

  lemma SortWritable(fs: seq<FileInput>)
    requires Writable(fs)
    ensures Writable(SortByPath(fs))
  {
    var s := SortByPath(fs);
    SortSums(fs);
    forall i | 0 <= i < |s| ensures ValidUtf8(s[i].path) && |s[i].path| < I64_LIMIT && IsI64(s[i].lastModified) {
      assert s[i] in multiset(fs);
    }
  }

  // ---------------------------------------------------------------------
  // Where each file lands
  // ---------------------------------------------------------------------

  lemma {:induction false} DataRegionAppend(a: seq<FileInput>, b: seq<FileInput>)
    ensures DataRegion(a + b) == DataRegion(a) + DataRegion(b)
  {
    if |a| == 0 {
      assert a + b == b;
    } else {
      assert (a + b)[1..] == a[1..] + b;
      DataRegionAppend(a[1..], b);
    }
  }

  /** The `i`-th record names the `i`-th file, and its `start` is the offset
      plus the sizes of the files before it. */
  lemma {:induction false} RecordAt(fs: seq<FileInput>, offset: nat, i: nat)
    requires i < |fs|
    ensures RecordsFrom(fs, offset)[i]
         == Record(fs[i].path, fs[i].lastModified, |fs[i].content|, offset + |DataRegion(fs[..i])|)
  {
    if i == 0 {
      assert fs[..0] == [];
    } else {
      RecordAt(fs[1..], offset + |fs[0].content|, i - 1);
      assert fs[1..][i - 1] == fs[i];
      assert fs[..i][1..] == fs[1..][..i - 1];
    }
  }

  /** The files before `i`, file `i`, and the files after it. */
  lemma DataRegionAround(fs: seq<FileInput>, i: nat)
    requires i < |fs|
    ensures DataRegion(fs) == DataRegion(fs[..i]) + fs[i].content + DataRegion(fs[i + 1..])
    ensures DataRegion(fs[..i + 1]) == DataRegion(fs[..i]) + fs[i].content
  {
    DataRegionSplit(fs, i);
    DataRegionPrefix(fs, i);
  }

  lemma DataRegionSplit(fs: seq<FileInput>, i: nat)
    requires i < |fs|
    ensures DataRegion(fs) == DataRegion(fs[..i]) + fs[i].content + DataRegion(fs[i + 1..])
  {
    var before, at, after := fs[..i], [fs[i]], fs[i + 1..];
    assert fs[i..] == at + after;
    assert fs == before + fs[i..];
    DataRegionAppend(before, at + after);
    DataRegionOne(fs[i]);
    DataRegionAppend(at, after);
    Associative(DataRegion(before), fs[i].content, DataRegion(after));
  }

  lemma DataRegionPrefix(fs: seq<FileInput>, i: nat)
    requires i < |fs|
    ensures DataRegion(fs[..i + 1]) == DataRegion(fs[..i]) + fs[i].content
  {
    assert fs[..i + 1] == fs[..i] + [fs[i]];
    DataRegionAppend(fs[..i], [fs[i]]);
    DataRegionOne(fs[i]);
  }

  lemma DataRegionOne(f: FileInput)
    ensures DataRegion([f]) == f.content
  {
    assert [f][1..] == [];
  }

  /** Record `i` of the written package locates file `i`'s bytes in the data
      region; the first starts at 0, each ends where the next starts and the
      last ends at the end of the data region. */
  lemma RecordLocatesContent(fs: seq<FileInput>, i: nat)
    requires i < |fs|
    ensures var r := RecordsFrom(fs, 0)[i];
            && r.path == fs[i].path && r.lastModified == fs[i].lastModified
            && r.len == |fs[i].content|
            && r.start + r.len <= |DataRegion(fs)|
            && DataRegion(fs)[r.start..r.start + r.len] == fs[i].content
            && (i == 0 ==> r.start == 0)
            && (i + 1 < |fs| ==> r.start + r.len == RecordsFrom(fs, 0)[i + 1].start)
            && (i + 1 == |fs| ==> r.start + r.len == |DataRegion(fs)|)
  {
    RecordAt(fs, 0, i);
    DataRegionAround(fs, i);
    if i == 0 {
      assert fs[..0] == [];
    }
    if i + 1 < |fs| {
      RecordAt(fs, 0, i + 1);
    } else {
      assert fs[i + 1..] == [];
      assert fs[..i + 1] == fs;
    }
  }

  /** The files before `j` occupy at least the bytes of those up to and
      including file `i`. */
  lemma PrefixRegionGrows(fs: seq<FileInput>, i: nat, j: nat)
    requires i < j <= |fs|
    ensures |DataRegion(fs[..i])| + |fs[i].content| <= |DataRegion(fs[..j])|
  {
    DataRegionAround(fs, i);
    var before, between := fs[..i + 1], fs[i + 1..j];
    assert fs[..j] == before + between;
    DataRegionAppend(before, between);
  }

  /** Records later in the list start after earlier ones end: the intervals
      `[start, start + len)` do not overlap. */
  lemma RecordsInOrder(fs: seq<FileInput>, i: nat, j: nat)
    requires i < j < |fs|
    ensures RecordsFrom(fs, 0)[i].start + RecordsFrom(fs, 0)[i].len <= RecordsFrom(fs, 0)[j].start
  {
    RecordAt(fs, 0, i);
    RecordAt(fs, 0, j);
    PrefixRegionGrows(fs, i, j);
  }
}
