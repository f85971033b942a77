# rocket_static_fs in Dafny

This is a model of the core of `rocket_static_fs`, a static file server
fairing for Rocket. The model covers three parts:

- **The embedded asset package.** `write_package` sorts the files by path. It then writes an
  eight-byte big-endian `meta_len`, one record per file, and the files' bytes back to back. Each
  record is `[u64 path_len][path][i64 mtime][u64 len][u64 start]`.
  - `Package::from_bytes` decodes such a container into a path → entry map and a data region.
  - `Package::open` returns a file's slice of the data region.
  - `EmbeddedFileSystem` answers the five `FileSystem` questions from the decoded package.
- **`LimitReader`.** A reader that hands out at most `limit` bytes of the stream it wraps.
- **The fairing.** This covers:
  - the `Range` header parser, which hand-models the regular expression `(.*?)=(\d+)-(\d+)`;
  - `Range::len`;
  - the prefix normalisation of `StaticFileServer::new`;
  - the decision procedure of `on_response`.

  `on_response` is a pure function. Its inputs are the response status, the request (method, URI,
  a pre-parsed `If-Modified-Since`, the `Range` and `Accept-Encoding` values) and a backend given
  as its five answers. It returns the response: status, headers and body bytes.

All text is modelled as its UTF-8 bytes (`Bytes.Str`). Rust orders `str` values by their bytes, and
every pattern the server looks for is ASCII.

The properties proved, by part:

- **Package:**
  - the round trip: decoding the written package recovers every file's entry and exact bytes;
  - the output does not depend on the order the files are listed in;
  - the header holds exactly the records' size;
  - the records tile the data region without overlap;
  - a later record for the same path wins;
  - a `meta_len` that ends inside a record is not detected.
- **`LimitReader`:** it stays within its limit over any run of calls, and hands out the wrapped
  stream's bytes in order.
- **Fairing:**
  - a formatted range parses back to itself;
  - the branches of `on_response`, one lemma per outcome;
  - end to end, a GET for a file of a written package returns that file's bytes, and a range
    request returns exactly the requested slice.

## Model

| member | source | states |
|---|---|---|
| `Bytes.U64RoundTrip` | src/fs/embedded/mod.rs:113 | `read_u64::<BigEndian>` recovers what `write_u64::<BigEndian>` wrote, for every `u64` |
| `Bytes.I64RoundTrip` | src/fs/embedded/mod.rs:127 | `read_i64::<BigEndian>` recovers what `write_i64::<BigEndian>` wrote (two's complement), for every `i64` |
| `Bytes.U64Bytes` | src/fs/embedded/mod.rs:193 | a `u64` is written as exactly eight bytes |
| `Bytes.BeValueOfBeBytes` | src/fs/embedded/mod.rs:113 | reading back `k` big-endian bytes of a number below 256^k gives the number |
| `Bytes.BeBytesOfBeValue` | src/fs/embedded/mod.rs:113 | writing back the number a byte string denotes gives the same bytes |
| `Bytes.I64Value` | src/fs/embedded/mod.rs:127 | every eight bytes read as a big-endian `i64` give a value in the `i64` range |
| `Bytes.Decimal` | src/lib.rs:271 | `format!("{}")` of a number is a non-empty digit string without a leading zero |
| `Bytes.DecimalValue` | src/lib.rs:111-112 | `parse::<u64>` of a number's decimal numeral gives the number back |
| `Bytes.DecimalInjective` | src/lib.rs:271 | the decimal numeral written by `format!("{}")` determines the number |
| `Bytes.FindFrom` | src/lib.rs:244 | the position found holds the pattern, no earlier position does, and no result means no occurrence at all |
| `Bytes.ContainsMeansOccurs` | src/lib.rs:282 | `contains` holds exactly when the pattern occurs at some position |
| `Bytes.ReplaceFirst` | src/lib.rs:180 | with no occurrence the string is unchanged; otherwise the length changes by the replacement's length minus the pattern's |
| `Bytes.ReplaceLeading` | src/lib.rs:180 | when the URI starts with the prefix, `replacen(prefix, "", 1)` is the URI with the prefix cut off |
| `Utf8.AsciiIsUtf8` | src/fs/embedded/mod.rs:124 | every ASCII path passes the UTF-8 check of `read_to_string` |
| `Utf8.RejectsMalformed` | src/fs/embedded/mod.rs:124 | a lone continuation byte, a truncated sequence and an encoded surrogate fail the UTF-8 check; a two-byte character passes |
| `PathOrder.LexLeTotal` | src/fs/embedded/mod.rs:174 | any two paths are comparable in byte order |
| `PathOrder.LexLeAntisymmetric` | src/fs/embedded/mod.rs:174 | two paths that each sort no later than the other are equal |
| `PathOrder.LexLeTransitive` | src/fs/embedded/mod.rs:174 | byte order on paths is transitive |
| `PathOrder.PrefixSortsFirst` | src/fs/embedded/mod.rs:174 | a path sorts no later than any path it is a prefix of |
| `PackageWriter.Insert` | src/fs/embedded/mod.rs:174 | insertion adds exactly the one element: the multiset grows by it |
| `PackageWriter.SortByPath` | src/fs/embedded/mod.rs:173-174 | sorting is a permutation of its input |
| `PackageWriter.InsertSorted` | src/fs/embedded/mod.rs:174 | inserting into a sorted list keeps it sorted |
| `PackageWriter.InsertDistinct` | src/fs/embedded/mod.rs:174 | inserting a new path into a list of distinct paths keeps them distinct |
| `PackageWriter.InsertSums` | src/fs/embedded/mod.rs:178-182 | inserting a file adds its record's bytes to `meta_len` and its size to the data region |
| `PackageWriter.SortByPathSorted` | src/fs/embedded/mod.rs:174 | the sort's output is ordered by path bytes |
| `PackageWriter.SortDistinct` | src/fs/embedded/mod.rs:173-174 | sorting keeps distinct paths distinct |
| `PackageWriter.SortedUnique` | src/fs/embedded/mod.rs:174 | two sorted lists with the same elements and distinct paths are equal, so the sorted order is unique |
| `PackageWriter.SortSums` | src/fs/embedded/mod.rs:178-182 | `meta_len` and the data size are the same for the list as given and as sorted |
| `PackageWriter.RecordsFrom` | src/fs/embedded/mod.rs:195-209 | one record is written per file |
| `PackageWriter.RecordAt` | src/fs/embedded/mod.rs:192-208 | record `i` carries file `i`'s path, mtime and size, and its `start` is the sum of the sizes of the files before it |
| `PackageWriter.RecordsEncodable` | src/fs/embedded/mod.rs:178-182 | every record fits its integer widths, and the records occupy exactly `meta_len` bytes (32 plus the path per file) |
| `PackageWriter.SortWritable` | src/fs/embedded/mod.rs:173-182 | sorting keeps the conditions under which no counter overflows |
| `PackageWriter.DataRegionAppend` | src/fs/embedded/mod.rs:211-214 | the data region of two lists of files is the concatenation of their data regions |
| `PackageWriter.DataRegionAround` | src/fs/embedded/mod.rs:211-214 | the data region is the files before `i`, then file `i`'s bytes, then the files after |
| `PackageWriter.RecordLocatesContent` | src/fs/embedded/mod.rs:192-214 | record `i`'s `[start, start + len)` holds exactly file `i`'s bytes; the first starts at 0, each ends where the next starts, and the last ends at the end of the data region |
| `PackageWriter.PrefixRegionGrows` | src/fs/embedded/mod.rs:208 | the running offset before file `j` is past the end of every earlier file `i` |
| `PackageWriter.RecordsInOrder` | src/fs/embedded/mod.rs:203-208 | a later record starts no earlier than an earlier one ends |
| `PackageWriter.WritePackage` | src/fs/embedded/mod.rs:173-214 | the container is the eight header bytes, `meta_len` bytes of records and every file's bytes, in total, whatever order the files are given in |
| `PackageFormat.EncodeRecord` | src/fs/embedded/mod.rs:197-206 | a record takes 32 bytes plus its path |
| `PackageFormat.EncodeRecords` | src/fs/embedded/mod.rs:195-209 | the records take exactly the bytes `meta_len` counts |
| `PackageFormat.ParseRecord` | src/fs/embedded/mod.rs:119-133 | a parsed record consumed 32 bytes plus its path and those bytes are there; its path is UTF-8 and its fields fit their widths; fewer than 32 bytes is an error |
| `PackageFormat.DecodeRecords` | src/fs/embedded/mod.rs:118-145 | the loop stops as soon as `read` reaches `meta_len`; a successful loop consumed at least `meta_len` bytes and keeps every path it already had |
| `PackageFormat.Decode` | src/fs/embedded/mod.rs:111-149 | fewer than 8 bytes is an error; on success the data region is exactly the bytes from `meta_len + 8` on; a zero `meta_len` gives an empty index |
| `PackageFormat.Open` | src/fs/embedded/mod.rs:151-164 | a missing path is `NotFound`; otherwise the result has the entry's length and byte `i` is data byte `start + i` |
| `PackageFormat.ParseEncodedRecord` | src/fs/embedded/mod.rs:119-133 | parsing an encoded record, whatever follows it, gives the record back and consumes exactly its bytes |
| `PackageFormat.DecodeStep` | src/fs/embedded/mod.rs:118-144 | one turn of the loop consumes one record and inserts its entry |
| `PackageFormat.EncodedRecordsParse` | src/fs/embedded/mod.rs:118-135 | encoded records parse back one by one, whatever follows them |
| `PackageFormat.DecodeParsedRecords` | src/fs/embedded/mod.rs:118-145 | the loop over a run of records builds the insert-in-order map of them and stops exactly when they are used up |
| `PackageFormat.ParsedTail` | src/fs/embedded/mod.rs:133-135 | what follows a run of parsed records begins exactly their total size in |
| `PackageFormat.DecodeContainer` | src/fs/embedded/mod.rs:111-149 | a container whose header holds the records' size decodes to their index over what follows them |
| `PackageFormat.DecodeAssembled` | src/fs/embedded/mod.rs:111-149 | header, encoded records and data region decode to the records' index over that data region |
| `PackageFormat.DecodeFromLoop` | src/fs/embedded/mod.rs:147-148 | once the loop succeeds, decoding succeeds with the loop's map and the bytes from `meta_len + 8` on |
| `PackageFormat.TruncatedRecordIsError` | src/fs/embedded/mod.rs:118-131 | a header announcing records over fewer bytes than one record's fixed part is an error |
| `PackageFormat.MetaLenOvershoot` | src/fs/embedded/mod.rs:118-147 | a `meta_len` that ends inside a record is not an error: the whole record is read and the data region starts inside it |
| `PackageFormat.OvershootLoop` | src/fs/embedded/mod.rs:118-135 | the loop over one record with `meta_len` inside it stops after that record |
| `PackageFormat.IndexLastWins` | src/fs/embedded/mod.rs:137-144 | a path is in the index iff some record names it (or it was there); its entry is the last such record's; a path no record names keeps its entry |
| `PackageFormat.IndexOf` | src/fs/embedded/mod.rs:137-144 | the map built keeps every path it started with and holds the path of every record inserted |
| `PackageFormat.IndexHas` | src/fs/embedded/mod.rs:137-144 | a path is in the index exactly when some record names it or it was there before |
| `PackageFormat.IndexLast` | src/fs/embedded/mod.rs:137-144 | the entry kept for a path is the one from the last record naming it |
| `PackageFormat.IndexKeeps` | src/fs/embedded/mod.rs:137-144 | inserting records for other paths leaves a path's entry alone |
| `PackageFormat.IndexOfDistinct` | src/fs/embedded/mod.rs:137-144 | with distinct paths the index holds exactly the records' paths, each with its own record's entry |
| `PackageFormat.DuplicatePathLaterWins` | src/fs/embedded/mod.rs:137-144 | a container with two records for one path decodes to a single entry, the second record's |
| `PackageRoundTrip.DecodeWritten` | src/fs/embedded/mod.rs:111-214 | the written container decodes to the index of the sorted files' records over their concatenated bytes |
| `PackageRoundTrip.RecordPathsDistinct` | src/fs/embedded/mod.rs:195-198 | files with distinct paths give records with distinct paths |
| `PackageRoundTrip.RecordPaths` | src/fs/embedded/mod.rs:195-198 | the records name exactly the files' paths |
| `PackageRoundTrip.SortedIndex` | src/fs/embedded/mod.rs:137-144 | the decoded index holds exactly the sorted files' paths, each mapped to its record's entry |
| `PackageRoundTrip.SortedEntry` | src/fs/embedded/mod.rs:151-164 | in the decoded package every sorted file's entry has its mtime and size, lies inside the data region, and opens to its bytes |
| `PackageRoundTrip.FromSorted` | src/fs/embedded/mod.rs:173-174 | facts about the sorted list carry over to the list as given |
| `PackageRoundTrip.RoundTrip` | src/fs/embedded/mod.rs:111-214 | for distinct paths, decoding the written package succeeds: the index holds exactly the enrolled paths, each with its mtime and size, every entry lies inside the data region, and `Package::open` returns exactly the file's bytes |
| `PackageRoundTrip.WrittenEntriesDisjoint` | src/fs/embedded/mod.rs:203-208 | two files of the written package occupy disjoint byte ranges of the data region |
| `PackageRoundTrip.WriteOrderIndependent` | src/fs/embedded/mod.rs:173-174 | two lists with the same files give byte-for-byte the same package |
| `PackageRoundTrip.WrittenHeader` | src/fs/embedded/mod.rs:178-214 | the header holds `meta_len`, the total of 32 plus each path's length, and the data region begins at `meta_len + 8` |
| `PackageRoundTrip.HelloWorldReadsBack` | src/fs/embedded/mod.rs:252-283 | a package enrolling `hello.txt` ("Hello World!") and `inner/other.txt` has both paths, and `hello.txt` has length 12 and reads back as those bytes |
| `EmbeddedFs.FromBytes` | src/fs/embedded/mod.rs:57-60 | fewer than eight bytes are `Truncated`; a file system that opens holds the decoded package, whose data region is every byte after the header and the `meta_len` bytes of records |
| `EmbeddedFs.FromContainer` | src/fs/embedded/mod.rs:57-60 | a container laid out as header, records and data opens as the file system indexing the records (the last one for a path winning) over exactly that data |
| `EmbeddedFs.IsFile` | src/fs/embedded/mod.rs:64-68 | a path is a file exactly when its size and its modification time can be read |
| `EmbeddedFs.PathValid` | src/fs/embedded/mod.rs:92-96 | a path is valid exactly when its size can be read, so only the package's files are valid paths |
| `EmbeddedFs.LastModified` | src/fs/embedded/mod.rs:70-75 | an indexed path has its entry's second and no nanoseconds; any other path is `NoSuchFile` |
| `EmbeddedFs.Size` | src/fs/embedded/mod.rs:77-82 | the size is known exactly for indexed paths, and it is the number of bytes `Package::open` hands back for the path |
| `EmbeddedFs.Open` | src/fs/embedded/mod.rs:84-90 | a missing path is `NoSuchFile`; an indexed one always opens, to the entry's slice of the data region from `start` on (nothing once `start` reaches the entry's length), so never to more than the entry's length |
| `EmbeddedFs.PathValidIsIsFile` | src/fs/embedded/mod.rs:64-96 | `path_valid` and `is_file` agree on every path |
| `EmbeddedFs.AsBackend` | src/fs/embedded/mod.rs:63-97 | the server's backend calls a path a file, and a valid one, exactly when the package indexes it; size and modification time come from its entry; opening it gives the entry's slice of the data region from the offset on, and any other path is `NoSuchFile` |
| `EmbeddedFs.WrittenFileSystem` | src/fs/embedded/mod.rs:57-97 | over a written package, every enrolled file is a valid path and a file, with its size and mtime; opening it at any offset gives its bytes from there, and nothing from its length on; any other path is a `NoSuchFile` error |
| `EmbeddedFs.ServesEnrolled` | src/fs/embedded/mod.rs:84-90 | a file whose entry and slice the package holds is served in full and from every offset |
| `LimitReader.CursorRead` | src/io/mod.rs:52 | the inner cursor fills as much of the buffer as it has bytes left, zeros the rest, and advances by the count |
| `LimitReader.New` | src/io/mod.rs:20-26 | a new reader has handed out nothing, keeps the limit and the stream, and is within its limit |
| `LimitReader.Read` | src/io/mod.rs:37-63 | `read <= limit` is kept; the count is at most `min(limit - read, len)` and is added to `read`; the first `count` buffer bytes are the stream's next bytes and the rest of the first `capacity` bytes are zeros; bytes from `capacity` on are untouched; at the limit nothing changes and 0 is returned |
| `LimitReader.ReadAll` | src/io/mod.rs:53 | `read <= limit` survives any run of calls |
| `LimitReader.ReadAllBounded` | src/io/mod.rs:37-63 | over any run of calls the bytes handed out are the stream's next bytes, in order, and number at most `limit - read`; `read` counts them exactly |
| `LimitReader.IntoInnerAfterReads` | src/io/mod.rs:20-63 | a fresh reader, read any number of times and unwrapped with `into_inner` (lines 28-30), gives back the stream advanced by exactly the at most `limit` bytes handed out |
| `LimitReader.SixOfTen` | src/io/mod.rs:71-89 | limit 6 over bytes 0 to 9 with 4-byte buffers reads `[0,1,2,3]`, then `[4,5,0,0]` with count 2, then nothing |
| `RustPath.LastIndex` | src/lib.rs:197 | the position found holds the byte and no later one does; none means the byte is absent |
| `RustPath.FileName` | src/lib.rs:197 | a last component that is a normal name (not empty, `.` or `..`) is the file name; any file name is a non-empty component without `/`, and never `.` or `..` |
| `RustPath.Extension` | src/lib.rs:197 | a file name with a `.` after its first byte has an extension; an extension follows a `.` preceded by a non-empty stem in the file name, and holds no `.` or `/` |
| `RustPath.LibRsExtension` | src/lib.rs:316-322 | `lib.rs` has the extension `rs` |
| `RustPath.OtherTxtExtension` | src/lib.rs:197 | `inner/other.txt` has the extension `txt` |
| `RustPath.HiddenFileHasNoExtension` | src/lib.rs:197 | `.bashrc` has no extension, so serving it would hit the `unwrap` |
| `RustPath.ParentHasNoExtension` | src/lib.rs:197 | a path ending in `..` has no extension |
| `RangeHeader.DigitRun` | src/lib.rs:59 | the run is made of digits and stops at a non-digit or the end |
| `RangeHeader.FirstMatch` | src/lib.rs:108 | the regex is searched leftmost-first: the position found matches and none before it does, and none means no match anywhere |
| `RangeHeader.LineStart` | src/lib.rs:59 | the lazy group starts right after the last line feed before the `=` (`.` does not cross a line feed) |
| `RangeHeader.MatchAt` | src/lib.rs:108-112 | the two numeric groups are non-empty digit strings and the unit holds no line feed |
| `RangeHeader.FromCaptures` | src/lib.rs:110-118 | the groups make a range exactly when both numbers fit a `u64`, and an overflow is the error otherwise |
| `RangeHeader.ParseRange` | src/lib.rs:107-122 | "invalid range header" exactly when no position matches `=\d+-\d+`; a parsed range has `u64` numbers and a unit without a line feed |
| `RangeHeader.Format` | src/lib.rs:274 | the written range's length is the unit's, two separators' and both numerals' lengths |
| `RangeHeader.Len` | src/lib.rs:99-101 | the length is a positive `u64`, and a range of that length from `start` ends at `end` |
| `RangeHeader.DigitRunOf` | src/lib.rs:59 | a numeral followed by a non-digit is exactly the greedy digit run there |
| `RangeHeader.FirstLine` | src/lib.rs:59 | with no line feed before the `=` the unit starts at the beginning |
| `RangeHeader.FormattedLayout` | src/lib.rs:274 | where the unit, `=`, numerals and `-` sit in a written range |
| `RangeHeader.PrefixLacks` | src/lib.rs:59 | a byte missing from the unit occurs nowhere before the `=` |
| `RangeHeader.FirstMatchAt` | src/lib.rs:108 | the search stops at the first matching position |
| `RangeHeader.FormattedRuns` | src/lib.rs:59 | in a written range the pattern matches at the `=` and the digit runs are the two numerals |
| `RangeHeader.FormattedMatch` | src/lib.rs:108 | in a written range whose unit holds no `=`, the first match is at the unit's end |
| `RangeHeader.FormattedGroups` | src/lib.rs:108-112 | the groups of a written range are its unit and its two numerals |
| `RangeHeader.FromNumerals` | src/lib.rs:111-112 | `parse::<u64>` of a range's own numerals gives back its numbers when they fit, an overflow otherwise |
| `RangeHeader.ParseFormatted` | src/lib.rs:107-122 | a written range, followed by anything not starting with a digit, parses back to itself when both numbers fit a `u64` and is an overflow otherwise |
| `RangeHeader.ParsesBytes0To1023` | src/lib.rs:349-356 | `bytes=0-1023` parses to unit "bytes", start 0 and end 1023 |
| `RangeHeader.NoEqualsNoMatch` | src/lib.rs:120 | a header with no `=` is "invalid range header" |
| `Server.NormalizePrefix` | src/lib.rs:145-148 | the result ends in `/`, extends the prefix by at most one byte, and equals the prefix exactly when it already ended in `/` |
| `Server.New` | src/lib.rs:144-151 | the server keeps the backend; its prefix ends in `/`, is the given prefix or that plus `/`, and normalising it again changes nothing |
| `Server.Requested` | src/lib.rs:239-254 | a range is honoured exactly when the header is present, has no `,` and parses, and it is then the parsed range |
| `Server.Claims` | src/lib.rs:167-180 | a request the fairing takes has the prefix in front of its URI, and its file path is the rest of the URI |
| `Server.FilePath` | src/lib.rs:180 | behind a leading prefix the file path is the rest of the URI; a URI without the prefix stays whole |
| `Server.Typed` | src/lib.rs:196-200 | `Content-Type` is set to the MIME type of the path's extension; the status, the body and every other header stay as they were |
| `Server.ContentRangeValue` | src/lib.rs:272-275 | the value is the range as written, then `/`, then the file size in decimal; the range parser reads it back as the same range when the unit holds no `=` or line feed and both numbers fit a `u64` |
| `Server.Take` | src/lib.rs:270 | `take(n)` yields a prefix of the stream of at most `n` bytes, all `n` unless the stream ends first |
| `Server.NoPanicIf` | src/lib.rs:197-203 | an extension, a modification time and a length for every honoured range are enough for the fairing not to panic |
| `Server.Deliver` | src/lib.rs:258-296 | failing to open is 403; otherwise `Accept-Ranges` and `Last-Modified` are set, and the answer is 200 with the whole stream, or 206 with the range's length, the `Content-Range` value and a body cut to that length; it is gzipped exactly when the client accepts gzip |
| `Server.OnResponse` | src/lib.rs:165-297 | an unclaimed response is returned unchanged; a claimed one ends as 200, 206, 304, 403 or 404; an existing file never gets 404 and always carries its extension's MIME type |
| `Server.PathChecks` | src/lib.rs:180-193 | the file path is the URI after the prefix; an invalid path is 403, then a non-file is 404, with nothing else changed |
| `Server.SameSecond` | src/lib.rs:209-213 | chrono's truncating `num_seconds() == 0` holds exactly when the header names the modification second, or the second after when the time has a fraction |
| `Server.NotModified` | src/lib.rs:205-219 | a GET naming the modification second gets 304 with only the MIME type added, before size, range or contents are looked at |
| `Server.ModifiedIsServed` | src/lib.rs:209-219 | any other `If-Modified-Since` never gives 304 |
| `Server.HeadRequest` | src/lib.rs:221-236 | HEAD is never 304; with a known size it is 200 with `Accept-Ranges: bytes` and `Content-Length` the size, and the body is left as it was; an unknown size is 403 |
| `Server.GetErrors` | src/lib.rs:221-295 | for a GET not answered 304, an unknown size is 403 and so is a file that fails to open |
| `Server.Delivers` | src/lib.rs:238-258 | a GET past the 304 and size checks is answered by `Deliver` with the range the header yields |
| `Server.WholeFile` | src/lib.rs:239-265 | a GET with no honoured range (none, several, or unparsable) gets 200, the whole file from offset 0, `Accept-Ranges` and `Last-Modified`, and no added `Content-Range` or `Content-Length` |
| `Server.PartialContent` | src/lib.rs:269-277 | a GET with an honoured range gets 206, `Content-Length` the range's length, `Content-Range` as `typ=start-end/size`, and a body of at most that length from the range's start |
| `Server.DeliverPartial` | src/lib.rs:269-277 | the 206 case of `Deliver` for one range |
| `Server.RequestedSome` | src/lib.rs:244-248 | a single range that parses is honoured |
| `Server.GzipChoice` | src/lib.rs:281-290 | the body is gzipped and `Content-Encoding: gzip` set exactly when `Accept-Encoding` contains "gzip"; status and body bytes are those of the same request without the header |
| `EmbeddedServing.GetRequest` | src/lib.rs:172-180 | a GET for a path under the prefix passes the prefix gate and strips back to that path |
| `EmbeddedServing.GetPath` | src/lib.rs:180 | the file path of such a request is the path asked for |
| `EmbeddedServing.NoComma` | src/lib.rs:244 | a header without a `,` byte does not contain one |
| `EmbeddedServing.FormatNoComma` | src/lib.rs:244 | a written range whose unit has no `,` is not taken for several ranges |
| `EmbeddedServing.FormattedRequest` | src/lib.rs:244-248 | a written single range with `u64` numbers is honoured as itself |
| `EmbeddedServing.WholeFromBackend` | src/lib.rs:239-290 | a plain GET for a file the backend holds gets 200, its MIME type and exactly its bytes |
| `EmbeddedServing.RangeFromBackend` | src/lib.rs:239-290 | a range GET inside a file the backend holds gets 206 with the length, `Content-Range`, and exactly the bytes from `start` to `end` |
| `EmbeddedServing.PlainPartial` | src/lib.rs:269-290 | without `Accept-Encoding`, a range inside the file yields exactly that slice, unencoded |
| `EmbeddedServing.RangeBody` | src/lib.rs:270 | a body cut to the range's length from the range's start is exactly the slice |
| `EmbeddedServing.RangeRequest` | src/lib.rs:172-258 | a range GET for a held file passes every check up to opening at the range's start |
| `EmbeddedServing.WrittenServer` | src/fs/embedded/mod.rs:57-97 | the server over a written package holds every enrolled file |
| `EmbeddedServing.ServesWrittenFile` | src/lib.rs:316-317 | a plain GET for a file of the written package gets 200, its MIME type and exactly its bytes, unencoded |
| `EmbeddedServing.ServesRange` | src/lib.rs:269-290 | a range GET inside a file of the written package gets 206, the range's length, `Content-Range`, and exactly the requested bytes |
| `EmbeddedServing.ServesBytes5To10` | src/lib.rs:338-345 | `Range: bytes=5-10` on a file of at least 11 bytes gets 206, `Content-Length: 6` and the file's bytes 5 to 10 |

## Behaviour worth knowing

The model keeps each of these behaviours of the code:

- **`meta_len` overshoot.** The decoder does not check that the records end exactly at
  `meta_len`. A `meta_len` that ends inside a record is accepted: the loop reads the whole
  record and stops, and the data region still starts at `meta_len + 8`
  (`PackageFormat.MetaLenOvershoot`).
- **`Content-Range` format.** The value is written as `typ=start-end/size`, with an `=`.
  Section 4.2 of RFC 7233 writes it as `unit start-end/size`, with a space
  (`Server.ContentRangeValue`).
- **`Content-Length` with gzip.** A gzipped 206 response keeps `Content-Length` set to the
  range's unencoded length. Section 3.3.2 of RFC 7230 defines `Content-Length` as the length of
  the body as sent.
- **A 304 keeps its `Content-Type`.** The MIME type is set before the conditional check.
- **Range end past the file.** A range whose end lies past the end of the file still announces
  `end - start + 1` as `Content-Length`. The body is only as long as what the file has from
  `start` on. `Server.Deliver` states both facts.
- **Files without an extension.** The fairing panics at the `unwrap` of the extension. Here
  that is a precondition (`Server.NoPanic`).
- **HEAD bodies.** A HEAD response leaves the body as it found it. Dropping HEAD bodies is the
  framework's job.

## Left out

- `LocalFileSystem` (src/fs/mod.rs) is directory I/O and is not part of this model. The server is
  modelled against the five answers of any backend.
- `create_package_from_dir` (directory walk, canonicalisation, path rewriting) is left out.
  `write_package`'s `metadata()`, `File::open` and `io::copy` are too. Each file enters as its path,
  modification second and contents. Its size is its content's length.
- src/build.rs is not part of this model.
- The gzip encoder is not modelled. The body records only whether it goes through the encoder.
- The MIME lookup and the `Last-Modified` date rendering are parameters (`Server.Env`).
- `If-Modified-Since` enters already parsed as epoch seconds. A value that does not parse with
  the date format is absent.
- Rocket's request and response types are plain records.
  - Header-name case-insensitivity is not modelled.
  - Of repeated headers, only the first value is modelled.
- I/O errors of the inner stream of `LimitReader` are not modelled. The stream is an in-memory
  cursor. The server itself uses the standard `take`, not `LimitReader`.
- Panics become preconditions:
  - the extension `unwrap`;
  - the `expect` on the modification time;
  - out-of-bounds slicing in `Package::open` (`PackageFormat.Fits`);
  - the overflow checks of `Range::len` and of the writer's counters (`PackageWriter.Writable`).
- `RangeHeader.Len`: requires `start <= end` and no `u64` overflow. In a release build the source's
  subtraction would wrap around instead; that is not modelled.
- `PackageFormat.ParseRecord`: a path length of 2^63 or more is reported as `PathTooLong`. The
  source casts it to a negative `i64` and seeks backwards, which is not followed.
- `PackageFormat.Decode`: modification seconds are kept as raw `i64` values. chrono's panic on
  seconds outside its range is not modelled.
- `RangeHeader.ParseRange`: `\d` is taken as the ASCII digits. The regex crate's `\d` also
  matches other Unicode decimal digits, and `u64::from_str` rejects those.
- `PackageRoundTrip.HelloWorldReadsBack`: the test directory's other files are left open. So the
  source test's count of four files is not stated.
- `usize` truncation of offsets on 32-bit targets is not modelled.
