/** The fairing over the embedded file system of a written package: what a
    client gets for a file that `write_package` enrolled. */
module EmbeddedServing {

  import opened Wrappers
  import opened Bytes
  import opened FileSystem
  import opened PackageFormat
  import opened PackageWriter
  import opened EmbeddedFs
  import opened RustPath
  import opened RangeHeader
  import opened Server

  /** A GET for a request path served from a file system. */
  function GetRequest(srv: StaticFileServer, path: Str, range: Option<Str>): (req: Request)
    ensures req.verb == Get && req.ifModifiedSince.None? && req.acceptEncoding.None?
    ensures StartsWith(req.uri, srv.prefix) && req.uri[|srv.prefix|..] == path
    ensures req.range == range
  {
    assert (srv.prefix + path)[..|srv.prefix|] == srv.prefix;
    Request(Get, srv.prefix + path, None, range, None)
  }

  /** A header with no `,` does not hold one. */
  lemma NoComma(s: Str)
    requires forall k | 0 <= k < |s| :: s[k] != COMMA
    ensures !Contains(s, [COMMA])
  {
    NoCommaFrom(s, 0);
  }

  lemma {:induction false} NoCommaFrom(s: Str, from: nat)
    requires forall k | 0 <= k < |s| :: s[k] != COMMA
    decreases |s| - from
    ensures FindFrom(s, [COMMA], from).None?
  {
    if from + 1 <= |s| {
      assert s[from..from + 1][0] == s[from];
      assert !OccursAt(s, [COMMA], from);
      NoCommaFrom(s, from + 1);
    }
  }

  /** A formatted range whose unit holds no `,` holds none either: the rest
      is `=`, `-` and digits. */
  lemma FormatNoComma(rg: Range)
    requires forall k | 0 <= k < |rg.typ| :: rg.typ[k] != COMMA
    ensures !Contains(Format(rg), [COMMA])
  {
    var s := Format(rg);
    var ds, de := Decimal(rg.start), Decimal(rg.end);
    var e := |rg.typ|;
    forall k | 0 <= k < |s| ensures s[k] != COMMA {
      if k < e {
        assert s[k] == rg.typ[k];
      } else if e < k < e + 1 + |ds| {
        assert s[k] == ds[k - e - 1];
      } else if e + 1 + |ds| < k {
        assert s[k] == de[k - e - 2 - |ds|];
      }
    }
    NoComma(s);
  }

  /** What a backend answers for one file: it is a valid path and a file,
      with the file's modification time (whole seconds) and size, and opening
      it at any offset gives the file's bytes from there on. */
  ghost predicate Holds(fs: Backend, f: FileInput) {
    && fs.pathValid(f.path) && fs.isFile(f.path)
    && fs.lastModified(f.path) == Success(Time(f.lastModified, 0))
    && fs.size(f.path) == Success(|f.content|)
    && forall k: nat :: fs.open(f.path, Some(k)) == Success(if k < |f.content| then f.content[k..] else [])
  }

  /** The file path of a GET for a path under the server's prefix is that path. */
  lemma GetPath(srv: StaticFileServer, path: Str, range: Option<Str>)
    ensures FilePath(srv, GetRequest(srv, path, range)) == path
  {
    ReplaceLeading(GetRequest(srv, path, range).uri, srv.prefix);
  }

  /** A plain GET for a file the backend holds, whose path has an extension,
      gets 200 with its MIME type and exactly its bytes, unencoded. */
  lemma WholeFromBackend(srv: StaticFileServer, env: Env, f: FileInput, resp: Response)
    requires Holds(srv.fs, f) && Extension(f.path).Some?
    requires resp.status == NOT_FOUND
    ensures var req := GetRequest(srv, f.path, None);
            && NoPanic(srv, req, resp)
            && var r := OnResponse(srv, env, req, resp);
               && r.status == OK
               && r.body == Plain(f.content)
               && ContentType in r.headers
               && r.headers[ContentType] == env.mime(Extension(f.path).value)
  {
    var req := GetRequest(srv, f.path, None);
    GetPath(srv, f.path, None);
    assert srv.fs.open(f.path, Some(0)) == Success(f.content);
    assert Requested(req.range).None?;
    assert NoPanic(srv, req, resp);
    WholeFile(srv, env, req, resp, f.content);
  }

  /** A GET for a file the backend holds, whose path has an extension, with
      a `Range` header naming one range inside the file, gets 206 with the
      range's length as `Content-Length`, `typ=start-end/size` as
      `Content-Range`, and exactly the file's bytes from `start` to `end`. */
  lemma RangeFromBackend(srv: StaticFileServer, env: Env, f: FileInput, resp: Response, rg: Range)
    requires Holds(srv.fs, f) && Extension(f.path).Some?
    requires resp.status == NOT_FOUND
    requires forall k | 0 <= k < |rg.typ| :: rg.typ[k] != EQUALS && rg.typ[k] != NEWLINE && rg.typ[k] != COMMA
    requires HasLen(rg) && rg.end < |f.content|
    ensures var req := GetRequest(srv, f.path, Some(Format(rg)));
            && NoPanic(srv, req, resp)
            && var r := OnResponse(srv, env, req, resp);
               && r.status == PARTIAL_CONTENT
               && ContentLength in r.headers && r.headers[ContentLength] == Decimal(rg.end - rg.start + 1)
               && ContentRange in r.headers && r.headers[ContentRange] == ContentRangeValue(rg, |f.content|)
               && r.body == Plain(f.content[rg.start..rg.end + 1])
  {
    var req := GetRequest(srv, f.path, Some(Format(rg)));
    RangeRequest(srv, f, resp, rg);
    PlainPartial(srv, env, req, resp, rg, f.content);
  }

  /** A range GET without `Accept-Encoding`, for a file whose contents hold
      the whole range, gets exactly the range's bytes, unencoded. */
  lemma PlainPartial(srv: StaticFileServer, env: Env, req: Request, resp: Response, rg: Range, content: seq<Byte>)
    requires NoPanic(srv, req, resp) && ServedFile(srv, req, resp)
    requires req.verb == Get && req.acceptEncoding.None?
    requires !Unmodified(req, srv.fs.lastModified(FilePath(srv, req)).value)
    requires srv.fs.size(FilePath(srv, req)).Success?
    requires req.range.Some? && !Contains(req.range.value, [COMMA]) && ParseRange(req.range.value) == Success(rg)
    requires rg.start <= rg.end < |content|
    requires srv.fs.open(FilePath(srv, req), Some(rg.start)) == Success(content[rg.start..])
    ensures var r, path := OnResponse(srv, env, req, resp), FilePath(srv, req);
            && r.status == PARTIAL_CONTENT
            && ContentLength in r.headers && r.headers[ContentLength] == Decimal(rg.end - rg.start + 1)
            && ContentRange in r.headers && r.headers[ContentRange] == ContentRangeValue(rg, srv.fs.size(path).value)
            && r.body == Plain(content[rg.start..rg.end + 1])
  {
    PartialContent(srv, env, req, resp, rg, content[rg.start..]);
    RangeBody(OnResponse(srv, env, req, resp).body, content, rg.start, rg.end + 1);
  }

  /** An unencoded body that is a prefix of the bytes from `a` on, as long
      as the stretch from `a` to `b`, is that stretch. */
  lemma RangeBody(body: Body, content: seq<Byte>, a: nat, b: nat)
    requires a <= b <= |content|
    requires body.Plain? && |body.data| == b - a
    requires |body.data| <= |content[a..]| && body.data == content[a..][..|body.data|]
    ensures body == Plain(content[a..b])
  {
  }

  /** The range request reaches the 206 case without panicking. */
  lemma RangeRequest(srv: StaticFileServer, f: FileInput, resp: Response, rg: Range)
    requires Holds(srv.fs, f) && Extension(f.path).Some?
    requires resp.status == NOT_FOUND
    requires forall k | 0 <= k < |rg.typ| :: rg.typ[k] != EQUALS && rg.typ[k] != NEWLINE && rg.typ[k] != COMMA
    requires HasLen(rg) && rg.end < |f.content|
    ensures var req := GetRequest(srv, f.path, Some(Format(rg)));
            && FilePath(srv, req) == f.path
            && NoPanic(srv, req, resp) && ServedFile(srv, req, resp)
            && !Unmodified(req, srv.fs.lastModified(f.path).value)
            && srv.fs.size(f.path) == Success(|f.content|)
            && !Contains(req.range.value, [COMMA]) && ParseRange(req.range.value) == Success(rg)
            && srv.fs.open(f.path, Some(rg.start)) == Success(f.content[rg.start..])
  {
    var req := GetRequest(srv, f.path, Some(Format(rg)));
    GetPath(srv, f.path, Some(Format(rg)));
    FormattedRequest(rg);
    assert srv.fs.open(f.path, Some(rg.start)) == Success(f.content[rg.start..]);
    NoPanicIf(srv, req, resp);
  }

  /** A formatted single range, sent as the `Range` header, is honoured as
      that range when both numbers fit a `u64`. */
  lemma FormattedRequest(rg: Range)
    requires forall k | 0 <= k < |rg.typ| :: rg.typ[k] != EQUALS && rg.typ[k] != NEWLINE && rg.typ[k] != COMMA
    requires IsU64(rg.start) && IsU64(rg.end)
    ensures !Contains(Format(rg), [COMMA]) && ParseRange(Format(rg)) == Success(rg)
    ensures Requested(Some(Format(rg))) == Some(rg)
  {
    ParseFormatted(rg, []);
    assert Format(rg) + [] == Format(rg);
    FormatNoComma(rg);
    RequestedSome(Format(rg), rg);
  }

  /** The backend over the written package holds every enrolled file. */
  lemma WrittenServer(files: seq<FileInput>, i: nat, prefix: Str)
    requires Writable(files) && DistinctPaths(files) && i < |files|
    ensures FromBytes(WritePackage(files)).Success?
    ensures var fs := FromBytes(WritePackage(files)).value;
            && WellFormed(fs.package)
            && Holds(New(AsBackend(fs), prefix).fs, files[i])
  {
    WrittenFileSystem(files);
    var fs := FromBytes(WritePackage(files)).value;
    assert Serves(fs, files[i]);
  }

  /** A GET with no conditional, range or encoding headers for a file of the
      written package, whose path has an extension, gets 200 with the file's
      MIME type and exactly the file's bytes, unencoded. */
  lemma ServesWrittenFile(files: seq<FileInput>, i: nat, prefix: Str, env: Env, resp: Response)
    requires Writable(files) && DistinctPaths(files) && i < |files|
    requires Extension(files[i].path).Some?
    requires resp.status == NOT_FOUND
    ensures FromBytes(WritePackage(files)).Success?
    ensures var fs := FromBytes(WritePackage(files)).value;
            && WellFormed(fs.package)
            && var srv := New(AsBackend(fs), prefix);
               var req := GetRequest(srv, files[i].path, None);
               && NoPanic(srv, req, resp)
               && var r := OnResponse(srv, env, req, resp);
                  && r.status == OK
                  && r.body == Plain(files[i].content)
                  && ContentType in r.headers
                  && r.headers[ContentType] == env.mime(Extension(files[i].path).value)
  {
    WrittenServer(files, i, prefix);
    var fs := FromBytes(WritePackage(files)).value;
    WholeFromBackend(New(AsBackend(fs), prefix), env, files[i], resp);
  }

  /** A GET for a file of the written package, whose path has an extension,
      with a `Range` header naming one range inside the file, gets 206 with
      the range's length as `Content-Length`, `typ=start-end/size` as
      `Content-Range`, and exactly the file's bytes from `start` to `end`. */
  lemma ServesRange(files: seq<FileInput>, i: nat, prefix: Str, env: Env, resp: Response, rg: Range)
    requires Writable(files) && DistinctPaths(files) && i < |files|
    requires Extension(files[i].path).Some?
    requires resp.status == NOT_FOUND
    requires forall k | 0 <= k < |rg.typ| :: rg.typ[k] != EQUALS && rg.typ[k] != NEWLINE && rg.typ[k] != COMMA
    requires HasLen(rg) && rg.end < |files[i].content|
    ensures FromBytes(WritePackage(files)).Success?
    ensures var fs := FromBytes(WritePackage(files)).value;
            && WellFormed(fs.package)
            && var srv := New(AsBackend(fs), prefix);
               var req := GetRequest(srv, files[i].path, Some(Format(rg)));
               && NoPanic(srv, req, resp)
               && var r := OnResponse(srv, env, req, resp);
                  && r.status == PARTIAL_CONTENT
                  && ContentLength in r.headers && r.headers[ContentLength] == Decimal(rg.end - rg.start + 1)
                  && ContentRange in r.headers
                  && r.headers[ContentRange] == ContentRangeValue(rg, |files[i].content|)
                  && r.body == Plain(files[i].content[rg.start..rg.end + 1])
  {
    WrittenServer(files, i, prefix);
    var fs := FromBytes(WritePackage(files)).value;
    RangeFromBackend(New(AsBackend(fs), prefix), env, files[i], resp, rg);
  }

  /** The source's range test, for any file of the written package of at
      least 11 bytes whose path has an extension: `Range: bytes=5-10` gets
      206 with `Content-Length: 6`, and a body of 6 bytes, the file's bytes
      5 to 10. */
  lemma ServesBytes5To10(files: seq<FileInput>, i: nat, prefix: Str, env: Env, resp: Response)
    requires Writable(files) && DistinctPaths(files) && i < |files|
    requires Extension(files[i].path).Some?
    requires 11 <= |files[i].content|
    requires resp.status == NOT_FOUND
    ensures FromBytes(WritePackage(files)).Success?
    ensures var fs := FromBytes(WritePackage(files)).value;
            && WellFormed(fs.package)
            && var srv := New(AsBackend(fs), prefix);
               var req := GetRequest(srv, files[i].path, Some(Format(Range(BYTES_UNIT, 5, 10))));
               && NoPanic(srv, req, resp)
               && var r := OnResponse(srv, env, req, resp);
                  && r.status == PARTIAL_CONTENT
                  && ContentLength in r.headers && r.headers[ContentLength] == [54]
                  && |r.body.data| == 6
                  && r.body == Plain(files[i].content[5..11])
  {
    assert Decimal(6) == [54];
    ServesRange(files, i, prefix, env, resp, Range(BYTES_UNIT, 5, 10));
  }
}
