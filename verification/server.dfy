/** The fairing: `StaticFileServer::new` and the decision procedure of
    `on_response`, over a backend given as its five answers. The MIME table
    and the date formatter are parameters; the body is the bytes handed to
    the response, tagged with whether they go through a gzip encoder. */
module Server {

  import opened Wrappers
  import opened Bytes
  import opened FileSystem
  import opened RustPath
  import opened RangeHeader

  const OK: nat := 200
  const PARTIAL_CONTENT: nat := 206
  const NOT_MODIFIED: nat := 304
  const FORBIDDEN: nat := 403
  const NOT_FOUND: nat := 404

  /** The headers the fairing writes, and any other by its name. */
  datatype HeaderName =
    | ContentType | ContentLength | ContentRange | ContentEncoding | AcceptRanges | LastModified
    | Other(name: string)

  /** "gzip", as bytes. */
  const GZIP: Str := [103, 122, 105, 112]

  datatype StaticFileServer = StaticFileServer(fs: Backend, prefix: Str)

  /** The prefix as stored: a `/` is appended exactly when the prefix does
      not already end in one. */
  function NormalizePrefix(prefix: Str): (r: Str)
    ensures 0 < |r| && r[|r| - 1] == SLASH
    ensures StartsWith(r, prefix) && |r| <= |prefix| + 1
    ensures r == prefix <==> 0 < |prefix| && prefix[|prefix| - 1] == SLASH
  {
    if 0 < |prefix| && prefix[|prefix| - 1] == SLASH then prefix else prefix + [SLASH]
  }

  /** `StaticFileServer::new`, which always succeeds: the stored prefix ends
      in `/`, extends the given one by at most that `/`, and normalising it
      again changes nothing. */
  function New(fs: Backend, prefix: Str): (s: StaticFileServer)
    ensures s.fs == fs
    ensures 0 < |s.prefix| && s.prefix[|s.prefix| - 1] == SLASH
    ensures s.prefix == prefix || s.prefix == prefix + [SLASH]
    ensures NormalizePrefix(s.prefix) == s.prefix
  {
    StaticFileServer(fs, NormalizePrefix(prefix))
  }

  datatype Method = Get | Put | Post | Delete | Options | Head | Trace | Connect | Patch

  /** What the fairing reads of a request: the method, the URI, the first
      `If-Modified-Since` value, when it parses with the date format (as
      epoch seconds), and the first `Range` and `Accept-Encoding` values. */
  datatype Request = Request(
    verb: Method,
    uri: Str,
    ifModifiedSince: Option<int>,
    range: Option<Str>,
    acceptEncoding: Option<Str>)

  /** A body streamed as is, or through a gzip encoder (whose output is not
      modelled). */
  datatype Body = Plain(data: seq<Byte>) | Gzipped(data: seq<Byte>)

  datatype Response = Response(status: nat, headers: map<HeaderName, Str>, body: Body)

  /** The external collaborators: the MIME type of an extension and the
      `Last-Modified` rendering of epoch seconds. */
  datatype Env = Env(mime: Str -> Str, httpDate: int -> Str)

  /** The response is the fairing's to fill: nothing else answered it, the
      method is GET or HEAD, and the URI starts with the prefix, so the file
      path is what follows the prefix. */
  predicate Claims(srv: StaticFileServer, req: Request, resp: Response)
    ensures Claims(srv, req, resp) ==> |srv.prefix| <= |req.uri| && FilePath(srv, req) == req.uri[|srv.prefix|..]
  {
    && resp.status == NOT_FOUND
    && (req.verb == Get || req.verb == Head)
    && StartsWith(req.uri, srv.prefix)
  }

  /** The file path: the URI with the first occurrence of the prefix
      removed. Behind a leading prefix it is the rest of the URI; a URI
      without the prefix is left whole. */
  function FilePath(srv: StaticFileServer, req: Request): (p: Str)
    ensures StartsWith(req.uri, srv.prefix) ==> p == req.uri[|srv.prefix|..]
    ensures !Contains(req.uri, srv.prefix) ==> p == req.uri
  {
    if StartsWith(req.uri, srv.prefix) then
      ReplaceLeading(req.uri, srv.prefix);
      ReplaceFirst(req.uri, srv.prefix, [])
    else ReplaceFirst(req.uri, srv.prefix, [])
  }

  /** chrono's `num_seconds() == 0` on the difference between the
      `If-Modified-Since` instant and the modification time: the difference,
      truncated toward zero to whole seconds, is zero. */
  predicate SameSecond(ims: int, t: Time)
    ensures SameSecond(ims, t) <==> ims == t.secs || (0 < t.nanos && ims == t.secs + 1)
  {
    var diff := ims * 1_000_000_000 - (t.secs * 1_000_000_000 + t.nanos);
    WithinASecond(ims - t.secs, t.nanos);
    -1_000_000_000 < diff < 1_000_000_000
  }

  /** `d` whole seconds less `nanos` nanoseconds lies strictly within one
      second of zero exactly when `d` is 0, or 1 with a positive `nanos`. */
  lemma WithinASecond(d: int, nanos: Nanos)
    ensures -1_000_000_000 < d * 1_000_000_000 - nanos < 1_000_000_000 <==> d == 0 || (0 < nanos && d == 1)
  {
    if d >= 2 {
      assert d * 1_000_000_000 >= 2_000_000_000;
    } else if d <= -1 {
      assert d * 1_000_000_000 <= -1_000_000_000;
    }
  }

  /** A GET whose `If-Modified-Since` names the file's modification second. */
  predicate Unmodified(req: Request, modified: Time) {
    && req.verb == Get
    && req.ifModifiedSince.Some?
    && SameSecond(req.ifModifiedSince.value, modified)
  }

  /** The range the response honours: none when the header is absent, holds
      a `,` (several ranges) or does not parse. */
  function Requested(header: Option<Str>): (r: Option<Range>)
    ensures r.Some? <==> header.Some? && !Contains(header.value, [COMMA]) && ParseRange(header.value).Success?
    ensures r.Some? ==> ParseRange(header.value) == Success(r.value)
    ensures r.Some? ==> IsU64(r.value.start) && IsU64(r.value.end)
  {
    var h := header.GetOr([]);
    if Contains(h, [COMMA]) then None
    else match ParseRange(h)
      case Failure(_) => None
      case Success(rg) =>
        Some(rg)
  }

  /** Where the first byte to send lies: the range's start, or 0. */
  function StartOf(range: Option<Range>): nat {
    if range.Some? then range.value.start else 0
  }

  /** The GET reaches `Range::len`: the file is not answered with 304, its
      size is known, a range is honoured and the file opens at its start. */
  predicate ReachesLen(srv: StaticFileServer, req: Request, path: Str, modified: Time) {
    && req.verb == Get
    && !Unmodified(req, modified)
    && srv.fs.size(path).Success?
    && Requested(req.range).Some?
    && srv.fs.open(path, Some(Requested(req.range).value.start)).Success?
  }

  /** When `on_response` does not panic: a file it serves has an extension
      (the `unwrap`), a readable modification time (the `expect`), and a
      range it honours has a length (`Range::len`'s arithmetic). */
  predicate NoPanic(srv: StaticFileServer, req: Request, resp: Response) {
    var path := FilePath(srv, req);
    Claims(srv, req, resp) && srv.fs.pathValid(path) && srv.fs.isFile(path) ==>
      && Extension(path).Some?
      && srv.fs.lastModified(path).Success?
      && (ReachesLen(srv, req, path, srv.fs.lastModified(path).value) ==> HasLen(Requested(req.range).value))
  }

  /** `on_response` does not panic when the file path has an extension and a
      modification time and every range honoured has a length. */
  lemma NoPanicIf(srv: StaticFileServer, req: Request, resp: Response)
    requires Extension(FilePath(srv, req)).Some? && srv.fs.lastModified(FilePath(srv, req)).Success?
    requires Requested(req.range).Some? ==> HasLen(Requested(req.range).value)
    ensures NoPanic(srv, req, resp)
  {
  }

  /** The client accepts gzip: its `Accept-Encoding` holds "gzip" anywhere. */
  predicate AcceptsGzip(req: Request) {
    req.acceptEncoding.Some? && Contains(req.acceptEncoding.value, GZIP)
  }

  /** The first `n` bytes of a stream, or all of it when shorter (`take`). */
  function Take(stream: seq<Byte>, n: nat): (r: seq<Byte>)
    ensures |r| <= n && |r| <= |stream| && r == stream[..|r|]
    ensures |r| == n || r == stream
  {
    if n < |stream| then stream[..n] else stream
  }

  /** `Content-Range` as the code writes it: `typ=start-end/size`, that is
      the range as a `Range` header writes it, a `/` and the file size in
      decimal; the `Range` parser reads it back as the same range. */
  function ContentRangeValue(rg: Range, size: nat): (v: Str)
    ensures |Format(rg)| < |v| && v[..|Format(rg)|] == Format(rg) && v[|Format(rg)|] == SLASH
    ensures v[|Format(rg)| + 1..] == Decimal(size)
    ensures ((forall k | 0 <= k < |rg.typ| :: rg.typ[k] != EQUALS && rg.typ[k] != NEWLINE)
             && IsU64(rg.start) && IsU64(rg.end)) ==> ParseRange(v) == Success(rg)
  {
    var rest := [SLASH] + Decimal(size);
    Associative(Format(rg), [SLASH], Decimal(size));
    if (forall k | 0 <= k < |rg.typ| :: rg.typ[k] != EQUALS && rg.typ[k] != NEWLINE) then
      ParseFormatted(rg, rest);
      Format(rg) + [SLASH] + Decimal(size)
    else Format(rg) + [SLASH] + Decimal(size)
  }

  /** The response with the MIME type of the file's extension set. */
  function Typed(resp: Response, env: Env, path: Str): (r: Response)
    requires Extension(path).Some?
    ensures r.status == resp.status && r.body == resp.body
    ensures r.headers.Keys == resp.headers.Keys + {ContentType}
    ensures r.headers[ContentType] == env.mime(Extension(path).value)
    ensures forall h | h in resp.headers && h != ContentType :: r.headers[h] == resp.headers[h]
  {
    resp.(headers := resp.headers[ContentType := env.mime(Extension(path).value)])
  }

  /** The GET steps from the `Range` header on, given the range honoured:
      the file opens at the range's start (or 0) or the answer is 403; an
      opened file gets `Accept-Ranges` and `Last-Modified`, and then either
      206 with the range's length and `Content-Range` and a body cut to that
      length, or 200 with the whole stream; the body goes through gzip
      exactly when the client accepts it. */
  function Deliver(srv: StaticFileServer, env: Env, req: Request, typed: Response, path: Str,
                   modified: Time, size: nat, range: Option<Range>): (r: Response)
    requires range.Some? && srv.fs.open(path, Some(range.value.start)).Success? ==> HasLen(range.value)
    ensures srv.fs.open(path, Some(StartOf(range))).Failure? ==> r == typed.(status := FORBIDDEN)
    ensures srv.fs.open(path, Some(StartOf(range))).Success? ==>
              var stream := srv.fs.open(path, Some(StartOf(range))).value;
              && AcceptRanges in r.headers && r.headers[AcceptRanges] == BYTES_UNIT
              && LastModified in r.headers && r.headers[LastModified] == env.httpDate(modified.secs)
              && (ContentType in r.headers <==> ContentType in typed.headers)
              && (ContentType in typed.headers ==> r.headers[ContentType] == typed.headers[ContentType])
              && (r.body.Gzipped? <==> AcceptsGzip(req))
              && (ContentEncoding in r.headers <==> AcceptsGzip(req) || ContentEncoding in typed.headers)
              && (AcceptsGzip(req) ==> r.headers[ContentEncoding] == GZIP)
              && (range.None? ==>
                    && r.status == OK
                    && r.body.data == stream
                    && (ContentRange in r.headers <==> ContentRange in typed.headers)
                    && (ContentLength in r.headers <==> ContentLength in typed.headers))
              && (range.Some? ==>
                    var rg := range.value;
                    && r.status == PARTIAL_CONTENT
                    && ContentLength in r.headers && r.headers[ContentLength] == Decimal(rg.end - rg.start + 1)
                    && ContentRange in r.headers && r.headers[ContentRange] == ContentRangeValue(rg, size)
                    && |r.body.data| <= rg.end - rg.start + 1
                    && |r.body.data| <= |stream| && r.body.data == stream[..|r.body.data|]
                    && (rg.end - rg.start < |stream| ==> |r.body.data| == rg.end - rg.start + 1))
  {
    match srv.fs.open(path, Some(StartOf(range)))
    case Failure(_) => typed.(status := FORBIDDEN)
    case Success(stream) =>
      var served := typed.headers[AcceptRanges := BYTES_UNIT][LastModified := env.httpDate(modified.secs)];
      var (status, headers, body) :=
        if range.Some? then
          var rg := range.value;
          (PARTIAL_CONTENT,
           served[ContentLength := Decimal(Len(rg))][ContentRange := ContentRangeValue(rg, size)],
           Take(stream, Len(rg)))
        else (OK, served, stream);
      if AcceptsGzip(req) then Response(status, headers[ContentEncoding := GZIP], Gzipped(body))
      else Response(status, headers, Plain(body))
  }

  /** `on_response`. A response the fairing does not claim is returned as
      it is; otherwise the outcome is one of 403, 404, 304, 200 or 206, and
      every outcome for an existing file carries its MIME type. */
  function OnResponse(srv: StaticFileServer, env: Env, req: Request, resp: Response): (r: Response)
    requires NoPanic(srv, req, resp)
    ensures !Claims(srv, req, resp) ==> r == resp
    ensures Claims(srv, req, resp) ==> r.status in {OK, PARTIAL_CONTENT, NOT_MODIFIED, FORBIDDEN, NOT_FOUND}
    ensures var path := FilePath(srv, req);
            Claims(srv, req, resp) && srv.fs.pathValid(path) && srv.fs.isFile(path) ==>
              && r.status != NOT_FOUND
              && ContentType in r.headers
              && r.headers[ContentType] == env.mime(Extension(path).value)
  {
    if !Claims(srv, req, resp) then resp
    else
      var path := FilePath(srv, req);
      if !srv.fs.pathValid(path) then resp.(status := FORBIDDEN)
      else if !srv.fs.isFile(path) then resp.(status := NOT_FOUND)
      else
        var typed := Typed(resp, env, path);
        var modified := srv.fs.lastModified(path).value;
        if Unmodified(req, modified) then typed.(status := NOT_MODIFIED)
        else match srv.fs.size(path)
          case Failure(_) => typed.(status := FORBIDDEN)
          case Success(size) =>
            if req.verb == Head then
              typed.(status := OK,
                     headers := typed.headers[AcceptRanges := BYTES_UNIT][ContentLength := Decimal(size)])
            else Deliver(srv, env, req, typed, path, modified, size, Requested(req.range))
  }

  // ---------------------------------------------------------------------
  // The branches, one by one
  // ---------------------------------------------------------------------

  /** The file path is the URI after the prefix; a path outside what the
      backend accepts is 403, and an accepted path that is no file is 404,
      in that order, with nothing else changed. */
  lemma PathChecks(srv: StaticFileServer, env: Env, req: Request, resp: Response)
    requires NoPanic(srv, req, resp) && Claims(srv, req, resp)
    ensures FilePath(srv, req) == req.uri[|srv.prefix|..]
    ensures var path := req.uri[|srv.prefix|..];
            && (!srv.fs.pathValid(path) ==> OnResponse(srv, env, req, resp) == resp.(status := FORBIDDEN))
            && (srv.fs.pathValid(path) && !srv.fs.isFile(path) ==>
                  OnResponse(srv, env, req, resp) == resp.(status := NOT_FOUND))
  {
    ReplaceLeading(req.uri, srv.prefix);
  }

  /** The state a served file has reached once it is past the path checks. */
  predicate ServedFile(srv: StaticFileServer, req: Request, resp: Response) {
    && Claims(srv, req, resp)
    && srv.fs.pathValid(FilePath(srv, req))
    && srv.fs.isFile(FilePath(srv, req))
  }

  /** A GET naming the file's modification second in `If-Modified-Since` is
      answered 304 with only the MIME type added, before the size, the range
      or the file's contents are looked at. */
  lemma NotModified(srv: StaticFileServer, env: Env, req: Request, resp: Response)
    requires NoPanic(srv, req, resp) && ServedFile(srv, req, resp)
    requires req.verb == Get && req.ifModifiedSince.Some?
    requires var t := srv.fs.lastModified(FilePath(srv, req)).value;
             req.ifModifiedSince.value == t.secs || (0 < t.nanos && req.ifModifiedSince.value == t.secs + 1)
    ensures var path := FilePath(srv, req);
            OnResponse(srv, env, req, resp)
              == Response(NOT_MODIFIED, resp.headers[ContentType := env.mime(Extension(path).value)], resp.body)
  {
    assert SameSecond(req.ifModifiedSince.value, srv.fs.lastModified(FilePath(srv, req)).value);
  }

  /** An `If-Modified-Since` that names neither the modification second nor,
      for a time with a fraction of a second, the one after, never gives 304. */
  lemma ModifiedIsServed(srv: StaticFileServer, env: Env, req: Request, resp: Response)
    requires NoPanic(srv, req, resp) && ServedFile(srv, req, resp)
    requires req.ifModifiedSince.Some?
    requires var t := srv.fs.lastModified(FilePath(srv, req)).value;
             req.ifModifiedSince.value != t.secs && !(0 < t.nanos && req.ifModifiedSince.value == t.secs + 1)
    ensures OnResponse(srv, env, req, resp).status != NOT_MODIFIED
  {
    assert !SameSecond(req.ifModifiedSince.value, srv.fs.lastModified(FilePath(srv, req)).value);
  }

  /** HEAD is never answered 304. With a known size it is 200 with
      `Accept-Ranges: bytes`, `Content-Length` the size in decimal, and the
      body left as it was; an unknown size is 403. */
  lemma HeadRequest(srv: StaticFileServer, env: Env, req: Request, resp: Response)
    requires NoPanic(srv, req, resp) && ServedFile(srv, req, resp)
    requires req.verb == Head
    ensures var r, path := OnResponse(srv, env, req, resp), FilePath(srv, req);
            && r.status != NOT_MODIFIED
            && r.body == resp.body
            && (srv.fs.size(path).Failure? ==> r.status == FORBIDDEN)
            && (srv.fs.size(path).Success? ==>
                  && r.status == OK
                  && r.headers == resp.headers[ContentType := env.mime(Extension(path).value)]
                                              [AcceptRanges := BYTES_UNIT]
                                              [ContentLength := Decimal(srv.fs.size(path).value)])
  {
  }

  /** For a GET that is not answered 304, an unknown size is 403, and so is
      a file that then fails to open. */
  lemma GetErrors(srv: StaticFileServer, env: Env, req: Request, resp: Response)
    requires NoPanic(srv, req, resp) && ServedFile(srv, req, resp)
    requires req.verb == Get
    requires !Unmodified(req, srv.fs.lastModified(FilePath(srv, req)).value)
    ensures var r, path := OnResponse(srv, env, req, resp), FilePath(srv, req);
            && (srv.fs.size(path).Failure? ==> r.status == FORBIDDEN && r.body == resp.body)
            && (srv.fs.open(path, Some(StartOf(Requested(req.range)))).Failure? ==> r.status == FORBIDDEN && r.body == resp.body)
  {
  }

  /** A GET past the 304 and size checks is answered by `Deliver`, with the
      range the `Range` header yields. */
  lemma Delivers(srv: StaticFileServer, env: Env, req: Request, resp: Response, range: Option<Range>)
    requires NoPanic(srv, req, resp) && ServedFile(srv, req, resp)
    requires req.verb == Get
    requires !Unmodified(req, srv.fs.lastModified(FilePath(srv, req)).value)
    requires srv.fs.size(FilePath(srv, req)).Success?
    requires range == Requested(req.range)
    ensures var path := FilePath(srv, req);
            && (range.Some? && srv.fs.open(path, Some(range.value.start)).Success? ==> HasLen(range.value))
            && OnResponse(srv, env, req, resp)
                 == Deliver(srv, env, req, Typed(resp, env, path), path, srv.fs.lastModified(path).value,
                            srv.fs.size(path).value, range)
  {
  }

  /** A GET without a range it can honour (no header, several ranges, or one
      that does not parse) gets 200 and the whole file from offset 0, with
      `Accept-Ranges` and `Last-Modified` set and no `Content-Range` or
      `Content-Length` added. */
  lemma WholeFile(srv: StaticFileServer, env: Env, req: Request, resp: Response, stream: seq<Byte>)
    requires NoPanic(srv, req, resp) && ServedFile(srv, req, resp)
    requires req.verb == Get
    requires !Unmodified(req, srv.fs.lastModified(FilePath(srv, req)).value)
    requires srv.fs.size(FilePath(srv, req)).Success?
    requires req.range.None? || Contains(req.range.value, [COMMA]) || ParseRange(req.range.value).Failure?
    requires srv.fs.open(FilePath(srv, req), Some(0)) == Success(stream)
    ensures var r, path := OnResponse(srv, env, req, resp), FilePath(srv, req);
            && r.status == OK
            && r.body.data == stream
            && AcceptRanges in r.headers && r.headers[AcceptRanges] == BYTES_UNIT
            && LastModified in r.headers
            && r.headers[LastModified] == env.httpDate(srv.fs.lastModified(path).value.secs)
            && (ContentRange in r.headers <==> ContentRange in resp.headers)
            && (ContentLength in r.headers <==> ContentLength in resp.headers)
            && (r.body.Gzipped? <==> AcceptsGzip(req))
  {
    Delivers(srv, env, req, resp, None);
  }

  /** A GET with a range it honours gets 206: `Content-Length` is the
      range's length, `Content-Range` is `typ=start-end/size`, and the body
      is the file from the range's start, cut to at most that length. */
  lemma PartialContent(srv: StaticFileServer, env: Env, req: Request, resp: Response, rg: Range, stream: seq<Byte>)
    requires NoPanic(srv, req, resp) && ServedFile(srv, req, resp)
    requires req.verb == Get
    requires !Unmodified(req, srv.fs.lastModified(FilePath(srv, req)).value)
    requires srv.fs.size(FilePath(srv, req)).Success?
    requires req.range.Some? && !Contains(req.range.value, [COMMA]) && ParseRange(req.range.value) == Success(rg)
    requires srv.fs.open(FilePath(srv, req), Some(rg.start)) == Success(stream)
    ensures HasLen(rg)
    ensures var r, path := OnResponse(srv, env, req, resp), FilePath(srv, req);
            && r.status == PARTIAL_CONTENT
            && ContentLength in r.headers && r.headers[ContentLength] == Decimal(rg.end - rg.start + 1)
            && ContentRange in r.headers && r.headers[ContentRange] == ContentRangeValue(rg, srv.fs.size(path).value)
            && AcceptRanges in r.headers && r.headers[AcceptRanges] == BYTES_UNIT
            && |r.body.data| <= rg.end - rg.start + 1
            && |r.body.data| <= |stream| && r.body.data == stream[..|r.body.data|]
            && (rg.end - rg.start < |stream| ==> |r.body.data| == rg.end - rg.start + 1)
            && (r.body.Gzipped? <==> AcceptsGzip(req))
  {
    var path := FilePath(srv, req);
    RequestedSome(req.range.value, rg);
    Delivers(srv, env, req, resp, Some(rg));
    DeliverPartial(srv, env, req, Typed(resp, env, path), path, srv.fs.lastModified(path).value,
                   srv.fs.size(path).value, rg, stream);
  }

  /** `Deliver`'s 206 case, stated for one range. */
  lemma DeliverPartial(srv: StaticFileServer, env: Env, req: Request, typed: Response, path: Str,
                       modified: Time, size: nat, rg: Range, stream: seq<Byte>)
    requires srv.fs.open(path, Some(rg.start)) == Success(stream)
    requires HasLen(rg)
    ensures var r := Deliver(srv, env, req, typed, path, modified, size, Some(rg));
            && r.status == PARTIAL_CONTENT
            && ContentLength in r.headers && r.headers[ContentLength] == Decimal(rg.end - rg.start + 1)
            && ContentRange in r.headers && r.headers[ContentRange] == ContentRangeValue(rg, size)
            && AcceptRanges in r.headers && r.headers[AcceptRanges] == BYTES_UNIT
            && |r.body.data| <= rg.end - rg.start + 1
            && |r.body.data| <= |stream| && r.body.data == stream[..|r.body.data|]
            && (rg.end - rg.start < |stream| ==> |r.body.data| == rg.end - rg.start + 1)
            && (r.body.Gzipped? <==> AcceptsGzip(req))
  {
  }

  /** A single range that parses is honoured. */
  lemma RequestedSome(header: Str, rg: Range)
    requires !Contains(header, [COMMA]) && ParseRange(header) == Success(rg)
    ensures Requested(Some(header)) == Some(rg)
  {
  }

  /** The body goes through the gzip encoder, and `Content-Encoding: gzip`
      is set, exactly when `Accept-Encoding` holds "gzip"; either way the
      status and the bytes fed to the body are those of the same request
      without the header. */
  lemma GzipChoice(srv: StaticFileServer, env: Env, req: Request, resp: Response)
    requires NoPanic(srv, req, resp) && ServedFile(srv, req, resp)
    requires ContentEncoding !in resp.headers
    requires var path := FilePath(srv, req);
             && req.verb == Get
             && !Unmodified(req, srv.fs.lastModified(path).value)
             && srv.fs.size(path).Success?
             && srv.fs.open(path, Some(StartOf(Requested(req.range)))).Success?
    ensures var r := OnResponse(srv, env, req, resp);
            && (r.body.Gzipped? <==> AcceptsGzip(req))
            && (ContentEncoding in r.headers <==> AcceptsGzip(req))
            && (ContentEncoding in r.headers ==> r.headers[ContentEncoding] == GZIP)
    ensures NoPanic(srv, req.(acceptEncoding := None), resp)
    ensures var plain := OnResponse(srv, env, req.(acceptEncoding := None), resp);
            var r := OnResponse(srv, env, req, resp);
            && plain.body.Plain?
            && r.status == plain.status
            && r.body.data == plain.body.data
  {
    var req' := req.(acceptEncoding := None);
    assert FilePath(srv, req') == FilePath(srv, req);
    Delivers(srv, env, req, resp, Requested(req.range));
    Delivers(srv, env, req', resp, Requested(req.range));
  }
}
