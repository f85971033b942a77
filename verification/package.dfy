/** The embedded asset package: its record format, the decoder
    `Package::from_bytes` and `Package::open`.

    Layout: an eight-byte big-endian `meta_len`, then records
    `[u64 path_len][path][i64 mtime][u64 len][u64 start]` filling `meta_len`
    bytes, then the data region, where each `start` is relative to the data
    region. */
module PackageFormat {

  import opened Wrappers
  import opened Bytes
  import opened Utf8

  /** `InternalFile`: modification time in epoch seconds, byte length and
      offset into the data region. */
  datatype Entry = Entry(lastModified: int, len: nat, start: nat)

  datatype Package = Package(files: map<Str, Entry>, data: seq<Byte>)

  /** One metadata record as it appears in the container. */
  datatype Record = Record(path: Str, lastModified: int, len: nat, start: nat)

  datatype PackageError =
    | Truncated      // fewer bytes left than a field needs
    | PathNotUtf8    // `read_to_string` rejected the path bytes
    | PathTooLong    // a path length that does not fit a forward `i64` seek
    | NotFound       // "file does not exist"

  /** The fixed part of a record: path length, mtime, length and start. */
  const RECORD_FIXED: nat := 32

  function EntryOf(r: Record): Entry {
    Entry(r.lastModified, r.len, r.start)
  }

  /** What the writer can put in a record: a UTF-8 path no longer than Rust
      lets a `String` be, and fields within their integer widths. */
  predicate Encodable(r: Record) {
    && ValidUtf8(r.path)
    && |r.path| < I64_LIMIT
    && IsI64(r.lastModified)
    && r.len < U64_LIMIT
    && r.start < U64_LIMIT
  }

  predicate AllEncodable(rs: seq<Record>) {
    forall i | 0 <= i < |rs| :: Encodable(rs[i])
  }

  function EncodeRecord(r: Record): (out: seq<Byte>)
    requires Encodable(r)
    ensures |out| == RECORD_FIXED + |r.path|
  {
    U64Bytes(|r.path|) + r.path + I64Bytes(r.lastModified) + U64Bytes(r.len) + U64Bytes(r.start)
  }

  /** The bytes a list of records occupies: 32 plus the path per record. */
  function RecordsSize(rs: seq<Record>): nat {
    if |rs| == 0 then 0 else RECORD_FIXED + |rs[0].path| + RecordsSize(rs[1..])
  }

  function EncodeRecords(rs: seq<Record>): (out: seq<Byte>)
    requires AllEncodable(rs)
    ensures |out| == RecordsSize(rs)
  {
    if |rs| == 0 then [] else EncodeRecord(rs[0]) + EncodeRecords(rs[1..])
  }

  // ---------------------------------------------------------------------
  // Decoding
  // ---------------------------------------------------------------------

  /** Reads one record from the front of `s`; on success also says how many
      bytes it consumed (`cursor_end - cursor_start`). */
  function ParseRecord(s: seq<Byte>): (r: Result<(Record, nat), PackageError>)
    ensures r.Success? ==> r.value.1 == RECORD_FIXED + |r.value.0.path| <= |s|
    ensures r.Success? ==> s[8..r.value.1 - 24] == r.value.0.path
    ensures r.Success? ==> ValidUtf8(r.value.0.path) && IsI64(r.value.0.lastModified)
    ensures r.Success? ==> IsU64(r.value.0.len) && IsU64(r.value.0.start)
    ensures |s| < RECORD_FIXED ==> r.Failure?
  {
    if |s| < 8 then Failure(Truncated)
    else
      var pathLen := BeValue(s[..8]);
      // `take(path_len).read_to_string` reads what is there, then checks it
      var available := s[8..if 8 + pathLen <= |s| then 8 + pathLen else |s|];
      if !ValidUtf8(available) then Failure(PathNotUtf8)
      else if pathLen >= I64_LIMIT then Failure(PathTooLong)
      else if |s| < RECORD_FIXED + pathLen then Failure(Truncated)
      else
        var p := 8 + pathLen;
        Pow256Of8();
        var rec := Record(s[8..p], I64Value(s[p..p + 8]), BeValue(s[p + 8..p + 16]), BeValue(s[p + 16..p + 24]));
        Success((rec, p + 24))
  }

  /** The `while read < meta_len` loop: `rest` is what follows the cursor,
      `read` the bytes consumed so far and `files` the map built so far. */
  function DecodeRecords(rest: seq<Byte>, read: nat, metaLen: nat, files: map<Str, Entry>)
    : (r: Result<map<Str, Entry>, PackageError>)
    decreases |rest|
    ensures r.Success? ==> metaLen <= read + |rest|
    ensures r.Success? ==> files.Keys <= r.value.Keys
    ensures read >= metaLen ==> r == Success(files)
  {
    if read >= metaLen then Success(files)
    else
      match ParseRecord(rest)
      case Failure(e) => Failure(e)
      case Success((rec, n)) =>
        DecodeRecords(rest[n..], read + n, metaLen, files[rec.path := EntryOf(rec)])
  }

  /** `Package::from_bytes`. */
  function Decode(bytes: seq<Byte>): (r: Result<Package, PackageError>)
    ensures |bytes| < 8 ==> r == Failure(Truncated)
    ensures r.Success? ==> 8 + BeValue(bytes[..8]) <= |bytes|
    ensures r.Success? ==> r.value.data == bytes[8 + BeValue(bytes[..8])..]
    ensures 8 <= |bytes| && BeValue(bytes[..8]) == 0 ==> r == Success(Package(map[], bytes[8..]))
  {
    if |bytes| < 8 then Failure(Truncated)
    else
      var metaLen := BeValue(bytes[..8]);
      match DecodeRecords(bytes[8..], 0, metaLen, map[])
      case Failure(e) => Failure(e)
      case Success(files) => Success(Package(files, bytes[8 + metaLen..]))
  }

  // ---------------------------------------------------------------------
  // Looking files up
  // ---------------------------------------------------------------------

  predicate Fits(e: Entry, dataLen: nat) {
    e.start + e.len <= dataLen
  }

  /** Every entry's bytes lie inside the data region. */
  predicate WellFormed(pkg: Package) {
    forall p | p in pkg.files :: Fits(pkg.files[p], |pkg.data|)
  }

  /** `Package::open`: the bytes of the named file, or `NotFound`. The
      source slices without checking, so an entry that does not fit is the
      caller's to rule out. */
  function Open(pkg: Package, path: Str): (r: Result<seq<Byte>, PackageError>)
    requires path in pkg.files ==> Fits(pkg.files[path], |pkg.data|)
    ensures path !in pkg.files <==> r == Failure(NotFound)
    ensures r.Success? ==> |r.value| == pkg.files[path].len
    ensures r.Success? ==> forall i | 0 <= i < |r.value| :: r.value[i] == pkg.data[pkg.files[path].start + i]
  {
    if path in pkg.files then
      var e := pkg.files[path];
      Success(pkg.data[e.start..e.start + e.len])
    else Failure(NotFound)
  }

  // ---------------------------------------------------------------------
  // What decoding builds
  // ---------------------------------------------------------------------

  /** The map the loop builds from a list of records: `HashMap::insert` in
      order, so a later record for the same path replaces an earlier one. */
  function IndexOf(acc: map<Str, Entry>, rs: seq<Record>): (r: map<Str, Entry>)
    ensures acc.Keys <= r.Keys
    ensures forall i | 0 <= i < |rs| :: rs[i].path in r
    decreases |rs|
  {
    if |rs| == 0 then acc else IndexOf(acc[rs[0].path := EntryOf(rs[0])], rs[1..])
  }

  /** Decoding one record undoes encoding it, whatever follows it. */
  lemma ParseEncodedRecord(r: Record, tail: seq<Byte>)
    requires Encodable(r)
    ensures ParseRecord(EncodeRecord(r) + tail) == Success((r, RECORD_FIXED + |r.path|))
  {
    var s := EncodeRecord(r) + tail;
    var n := |r.path|;
    var p := 8 + n;
    assert s[..8] == U64Bytes(n);
    U64RoundTrip(n);
    assert s[8..p] == r.path;
    assert s[p..p + 8] == I64Bytes(r.lastModified);
    I64RoundTrip(r.lastModified);
    assert s[p + 8..p + 16] == U64Bytes(r.len);
    U64RoundTrip(r.len);
    assert s[p + 16..p + 24] == U64Bytes(r.start);
    U64RoundTrip(r.start);
  }

  /** One turn of the decode loop. */
  lemma DecodeStep(s: seq<Byte>, read: nat, metaLen: nat, acc: map<Str, Entry>, r: Record, n: nat)
    requires read < metaLen
    requires ParseRecord(s) == Success((r, n))
    ensures n <= |s|
    ensures DecodeRecords(s, read, metaLen, acc) == DecodeRecords(s[n..], read + n, metaLen, acc[r.path := EntryOf(r)])
  {
  }

  /** `s` holds the records `rs`, one after another, followed by `tail`. */
  predicate ParsesAs(s: seq<Byte>, rs: seq<Record>, tail: seq<Byte>)
    decreases |rs|
  {
    if |rs| == 0 then s == tail
    else
      var n := RECORD_FIXED + |rs[0].path|;
      && n <= |s|
      && ParseRecord(s) == Success((rs[0], n))
      && ParsesAs(s[n..], rs[1..], tail)
  }

  lemma EncodeRecordsCons(rs: seq<Record>, tail: seq<Byte>)
    requires AllEncodable(rs) && 0 < |rs|
    ensures EncodeRecords(rs) + tail == EncodeRecord(rs[0]) + (EncodeRecords(rs[1..]) + tail)
  {
    var a, b := EncodeRecord(rs[0]), EncodeRecords(rs[1..]);
    assert EncodeRecords(rs) == a + b;
    Associative(a, b, tail);
  }

  /** Encoded records parse back, one by one, whatever follows them. */
  lemma {:induction false} EncodedRecordsParse(rs: seq<Record>, tail: seq<Byte>)
    requires AllEncodable(rs)
    ensures ParsesAs(EncodeRecords(rs) + tail, rs, tail)
  {
    if |rs| > 0 {
      var rest := EncodeRecords(rs[1..]) + tail;
      EncodeRecordsCons(rs, tail);
      ParseEncodedRecord(rs[0], rest);
      assert (EncodeRecord(rs[0]) + rest)[RECORD_FIXED + |rs[0].path|..] == rest;
      EncodedRecordsParse(rs[1..], tail);
    }
  }

  /** The decode loop over a run of records builds `IndexOf` of them and
      stops exactly when they are used up. */
  lemma {:induction false} DecodeParsedRecords(s: seq<Byte>, rs: seq<Record>, tail: seq<Byte>, read: nat, metaLen: nat, acc: map<Str, Entry>)
    requires ParsesAs(s, rs, tail)
    requires metaLen == read + RecordsSize(rs)
    ensures DecodeRecords(s, read, metaLen, acc) == Success(IndexOf(acc, rs))
  {
    if |rs| > 0 {
      var n := RECORD_FIXED + |rs[0].path|;
      var acc' := acc[rs[0].path := EntryOf(rs[0])];
      assert ParseRecord(s) == Success((rs[0], n)) && ParsesAs(s[n..], rs[1..], tail);
      DecodeStep(s, read, metaLen, acc, rs[0], n);
      DecodeParsedRecords(s[n..], rs[1..], tail, read + n, metaLen, acc');
      assert IndexOf(acc, rs) == IndexOf(acc', rs[1..]);
    }
  }

  /** What follows a run of parsed records is the tail. */
  lemma {:induction false} ParsedTail(s: seq<Byte>, rs: seq<Record>, tail: seq<Byte>)
    requires ParsesAs(s, rs, tail)
    ensures |s| == RecordsSize(rs) + |tail| && s[RecordsSize(rs)..] == tail
  {
    if |rs| > 0 {
      var n := RECORD_FIXED + |rs[0].path|;
      ParsedTail(s[n..], rs[1..], tail);
      assert s[n..][RecordsSize(rs[1..])..] == s[RecordsSize(rs)..];
    }
  }

  /** A container whose header holds the records' size, followed by those
      records and then the data region, decodes to the index of the records
      over that data region. */
  lemma DecodeContainer(bytes: seq<Byte>, rs: seq<Record>, data: seq<Byte>)
    requires 8 <= |bytes| && BeValue(bytes[..8]) == RecordsSize(rs)
    requires ParsesAs(bytes[8..], rs, data)
    ensures Decode(bytes) == Success(Package(IndexOf(map[], rs), data))
  {
    DecodeParsedRecords(bytes[8..], rs, data, 0, RecordsSize(rs), map[]);
    ParsedTail(bytes[8..], rs, data);
    assert bytes[8 + RecordsSize(rs)..] == bytes[8..][RecordsSize(rs)..];
    DecodeFromLoop(bytes, IndexOf(map[], rs));
  }

  /** The same, for a container assembled from a header, encoded records and
      a data region. */
  lemma DecodeAssembled(header: seq<Byte>, rs: seq<Record>, data: seq<Byte>)
    requires AllEncodable(rs)
    requires |header| == 8 && BeValue(header) == RecordsSize(rs)
    ensures Decode(header + EncodeRecords(rs) + data) == Success(Package(IndexOf(map[], rs), data))
  {
    var bytes := header + EncodeRecords(rs) + data;
    assert bytes == header + (EncodeRecords(rs) + data);
    assert bytes[..8] == header;
    assert bytes[8..] == EncodeRecords(rs) + data;
    EncodedRecordsParse(rs, data);
    DecodeContainer(bytes, rs, data);
  }

  /** A header announcing records over a container too short to hold even
      one record's fixed part is an error, not an empty package. */
  lemma TruncatedRecordIsError(bytes: seq<Byte>)
    requires 8 <= |bytes| < 8 + RECORD_FIXED
    requires 0 < BeValue(bytes[..8])
    ensures Decode(bytes).Failure?
  {
    assert ParseRecord(bytes[8..]).Failure?;
  }

  /** A `meta_len` that ends inside a record is not detected: the loop reads
      that whole record, stops, and the data region starts at `meta_len + 8`,
      inside the record. */
  lemma MetaLenOvershoot(r: Record, metaLen: nat, data: seq<Byte>)
    requires Encodable(r)
    requires 0 < metaLen < RECORD_FIXED + |r.path|
    ensures var bytes := U64Bytes(metaLen) + EncodeRecord(r) + data;
            Decode(bytes) == Success(Package(map[r.path := EntryOf(r)], (EncodeRecord(r) + data)[metaLen..]))
  {
    var body := EncodeRecord(r) + data;
    var bytes := U64Bytes(metaLen) + EncodeRecord(r) + data;
    Associative(U64Bytes(metaLen), EncodeRecord(r), data);
    U64RoundTrip(metaLen);
    assert bytes[..8] == U64Bytes(metaLen) && bytes[8..] == body;
    OvershootLoop(r, metaLen, data);
    DecodeFromLoop(bytes, map[r.path := EntryOf(r)]);
    assert bytes[8 + metaLen..] == body[metaLen..];
  }

  /** The loop over one encoded record and a `meta_len` inside it stops
      after that record. */
  lemma OvershootLoop(r: Record, metaLen: nat, data: seq<Byte>)
    requires Encodable(r)
    requires 0 < metaLen < RECORD_FIXED + |r.path|
    ensures DecodeRecords(EncodeRecord(r) + data, 0, metaLen, map[]) == Success(map[r.path := EntryOf(r)])
  {
    var body := EncodeRecord(r) + data;
    var n := RECORD_FIXED + |r.path|;
    ParseEncodedRecord(r, data);
    DecodeStep(body, 0, metaLen, map[], r, n);
  }

  /** Decoding succeeds with the loop's map once the loop does. */
  lemma DecodeFromLoop(bytes: seq<Byte>, files: map<Str, Entry>)
    requires |bytes| >= 8
    requires DecodeRecords(bytes[8..], 0, BeValue(bytes[..8]), map[]) == Success(files)
    ensures Decode(bytes) == Success(Package(files, bytes[8 + BeValue(bytes[..8])..]))
  {
  }

  /** Last record wins: the entry for a path is the one from the last record
      naming it, and a path no record names keeps its earlier entry. */
  lemma IndexLastWins(acc: map<Str, Entry>, rs: seq<Record>, p: Str)
    ensures (exists i | 0 <= i < |rs| :: rs[i].path == p) || p in acc <==> p in IndexOf(acc, rs)
    ensures forall j | 0 <= j < |rs| && rs[j].path == p ::
              (forall k | j < k < |rs| :: rs[k].path != p) ==> IndexOf(acc, rs)[p] == EntryOf(rs[j])
    ensures (forall i | 0 <= i < |rs| :: rs[i].path != p) && p in acc ==> IndexOf(acc, rs)[p] == acc[p]
  {
    IndexHas(acc, rs, p);
    forall j | 0 <= j < |rs| && rs[j].path == p && (forall k | j < k < |rs| :: rs[k].path != p)
      ensures IndexOf(acc, rs)[p] == EntryOf(rs[j])
    {
      IndexLast(acc, rs, p, j);
    }
    if (forall i | 0 <= i < |rs| :: rs[i].path != p) && p in acc {
      IndexKeeps(acc, rs, p);
    }
  }

  /** A path is in the index when some record names it or it was there. */
  lemma {:induction false} IndexHas(acc: map<Str, Entry>, rs: seq<Record>, p: Str)
    decreases |rs|
    ensures (exists i | 0 <= i < |rs| :: rs[i].path == p) || p in acc <==> p in IndexOf(acc, rs)
  {
    if |rs| > 0 {
      var acc' := acc[rs[0].path := EntryOf(rs[0])];
      IndexHas(acc', rs[1..], p);
      if exists i | 0 <= i < |rs| :: rs[i].path == p {
        var i :| 0 <= i < |rs| && rs[i].path == p;
        if i > 0 {
          assert rs[1..][i - 1].path == p;
        }
      }
      if exists i | 0 <= i < |rs[1..]| :: rs[1..][i].path == p {
        var i :| 0 <= i < |rs[1..]| && rs[1..][i].path == p;
        assert rs[i + 1].path == p;
      }
    }
  }

  /** The entry of the last record naming a path is the one the index keeps. */
  lemma {:induction false} IndexLast(acc: map<Str, Entry>, rs: seq<Record>, p: Str, j: nat)
    requires j < |rs| && rs[j].path == p
    requires forall k | j < k < |rs| :: rs[k].path != p
    decreases |rs|
    ensures p in IndexOf(acc, rs) && IndexOf(acc, rs)[p] == EntryOf(rs[j])
  {
    var acc' := acc[rs[0].path := EntryOf(rs[0])];
    if j == 0 {
      forall i | 0 <= i < |rs[1..]| ensures rs[1..][i].path != p {
        assert rs[1..][i] == rs[i + 1];
      }
      IndexKeeps(acc', rs[1..], p);
    } else {
      assert rs[1..][j - 1] == rs[j];
      forall k | j - 1 < k < |rs[1..]| ensures rs[1..][k].path != p {
        assert rs[1..][k] == rs[k + 1];
      }
      IndexLast(acc', rs[1..], p, j - 1);
    }
  }

  /** A path no record names keeps the entry it had. */
  lemma {:induction false} IndexKeeps(acc: map<Str, Entry>, rs: seq<Record>, p: Str)
    requires forall i | 0 <= i < |rs| :: rs[i].path != p
    requires p in acc
    decreases |rs|
    ensures p in IndexOf(acc, rs) && IndexOf(acc, rs)[p] == acc[p]
  {
    if |rs| > 0 {
      var acc' := acc[rs[0].path := EntryOf(rs[0])];
      assert rs[0].path != p;
      forall i | 0 <= i < |rs[1..]| ensures rs[1..][i].path != p {
        assert rs[1..][i] == rs[i + 1];
      }
      IndexKeeps(acc', rs[1..], p);
    }
  }

  /** With distinct paths the index holds exactly the records' paths, each
      mapped to its own record's entry. */
  lemma IndexOfDistinct(rs: seq<Record>)
    requires forall i, j | 0 <= i < j < |rs| :: rs[i].path != rs[j].path
    ensures IndexOf(map[], rs).Keys == set i | 0 <= i < |rs| :: rs[i].path
    ensures forall i | 0 <= i < |rs| :: IndexOf(map[], rs)[rs[i].path] == EntryOf(rs[i])
  {
    forall i | 0 <= i < |rs|
      ensures rs[i].path in IndexOf(map[], rs) && IndexOf(map[], rs)[rs[i].path] == EntryOf(rs[i])
    {
      IndexLastWins(map[], rs, rs[i].path);
    }
    forall p | p in IndexOf(map[], rs) ensures p in set i | 0 <= i < |rs| :: rs[i].path {
      IndexLastWins(map[], rs, p);
    }
  }

  /** Two records for one path in a container: the decoded entry is the
      second one's. */
  lemma DuplicatePathLaterWins(r1: Record, r2: Record, data: seq<Byte>)
    requires Encodable(r1) && Encodable(r2) && r1.path == r2.path
    requires RECORD_FIXED * 2 + |r1.path| * 2 < U64_LIMIT
    ensures RecordsSize([r1, r2]) < U64_LIMIT
    ensures var bytes := U64Bytes(RecordsSize([r1, r2])) + EncodeRecords([r1, r2]) + data;
            Decode(bytes).Success? && Decode(bytes).value.files == map[r1.path := EntryOf(r2)]
  {
    var rs := [r1, r2];
    assert rs[1..] == [r2];
    assert rs[1..][1..] == [];
    assert RecordsSize([r2]) == RECORD_FIXED + |r2.path|;
    assert RecordsSize(rs) == RECORD_FIXED * 2 + |r1.path| * 2;
    U64RoundTrip(RecordsSize(rs));
    DecodeAssembled(U64Bytes(RecordsSize(rs)), rs, data);
    assert IndexOf(map[], rs) == IndexOf(map[r1.path := EntryOf(r1)], [r2]);
    assert IndexOf(map[r1.path := EntryOf(r1)], [r2]) == IndexOf(map[r1.path := EntryOf(r1)][r2.path := EntryOf(r2)], []);
    assert map[r1.path := EntryOf(r1)][r2.path := EntryOf(r2)] == map[r1.path := EntryOf(r2)];
  }
}
