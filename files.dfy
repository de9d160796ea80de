/**
 * The static file responder of the HTTP engine: the server root
 * (`NutRegisterHttpRoot`), the path of a file below it (`CreateFilePath`),
 * the probe over the default index files, and `NutHttpProcessFileRequest`,
 * which answers with an error, the CGI output, a 304, or the header and
 * the file, sent in chunks of at most 512 bytes.
 */
module Files {
  import opened Options
  import opened CString
  import opened Mime
  import opened Requests
  import opened Responses
  import opened Streams

  /** `HTTP_DEFAULT_ROOT`: the root used while none is registered. */
  const DefaultRoot: string := "UROM:"
  /** `HTTP_FILE_CHUNK_SIZE`. */
  const ChunkSize: nat := 512

  /**
   * `default_files`: the URL itself first, then the index pages tried when
   * it names a directory, in this order.
   */
  const DefaultFiles: seq<string> := [
    "", "/index.html", "/index.htm", "/default.html", "/default.htm",
    "/index.shtml", "/index.xhtml", "/index.asp", "/default.asp"]

  /**
   * `NutRegisterHttpRoot`: the new `http_root` and the return code. A NULL
   * or empty path unregisters the root; a failed allocation leaves no root
   * and returns -1.
   */
  function RegisterHttpRoot(path: Option<string>, allocOk: bool): (r: (Option<string>, int))
    ensures r.1 == 0 || r.1 == -1
    ensures r.1 == -1 <==> path.Some? && |path.value| > 0 && !allocOk
    ensures r.0.Some? <==> path.Some? && |path.value| > 0 && allocOk
    ensures r.0.Some? ==> r.0 == path
  {
    if path.Some? && |path.value| > 0 then
      if allocOk then (path, 0) else (None, -1)
    else (None, 0)
  }

  /** The root `CreateFilePath` starts from. */
  function RootOf(root: Option<string>): string
  {
    if root.Some? then root.value else DefaultRoot
  }

  /**
   * Whatever `NutRegisterHttpRoot` returns, files are looked up under the
   * path it was given when it succeeded with one, and under the default
   * root otherwise, also after a failed allocation.
   */
  lemma RegisteredRootIsUsed(path: Option<string>, allocOk: bool)
    ensures var (root, rc) := RegisterHttpRoot(path, allocOk);
            RootOf(root) == (if rc == 0 && path.Some? && |path.value| > 0 then path.value else DefaultRoot)
  {
  }

  predicate EndsInSlash(url: string)
  {
    |url| > 0 && url[|url| - 1] == '/'
  }

  /**
   * `CreateFilePath`: root, URL and addon, where a non-empty addon loses
   * its first character (its `/`) when the URL is empty or already ends in
   * a slash.
   */
  function CreateFilePath(root: Option<string>, url: string, addon: string): string
  {
    RootOf(root) + url
    + (if |addon| == 0 then [] else addon[(if |url| == 0 || EndsInSlash(url) then 1 else 0)..])
  }

  /**
   * The path fits the `strlen(root) + strlen(url) + strlen(addon)`
   * characters the code allocates before its terminator, starts with root
   * and URL, and ends with the addon less at most its first character.
   */
  lemma FilePathFits(root: Option<string>, url: string, addon: string)
    ensures var path := CreateFilePath(root, url, addon);
            var base := RootOf(root) + url;
            && |base| <= |path| <= |RootOf(root)| + |url| + |addon|
            && path[..|base|] == base
            && (|addon| > 0 ==> |path| - |base| >= |addon| - 1 && path[|base|..] == addon[|addon| - (|path| - |base|)..])
  {
  }

  /** Every default file after the first is a `/` and a name with no slash of its own. */
  lemma DefaultFileShape(n: nat)
    requires 0 < n < |DefaultFiles|
    ensures |DefaultFiles[n]| > 1 && DefaultFiles[n][0] == '/' && '/' !in DefaultFiles[n][1..]
  {
  }

  /**
   * The path of default file `n` starts with root and URL, and exactly one
   * slash separates a non-empty URL from the index name: the URL's own
   * when it ends in one, else the one the addon brings. An empty URL is
   * followed by the bare name.
   */
  lemma FilePathJoin(root: Option<string>, url: string, n: nat)
    requires 0 < n < |DefaultFiles|
    ensures var path := CreateFilePath(root, url, DefaultFiles[n]);
            var base := RootOf(root) + url;
            |path| > |base| + 1 && path[..|base|] == base
            && (|url| == 0 || EndsInSlash(url) ==> path[|base|..] == DefaultFiles[n][1..] && path[|base|] != '/')
            && (|url| > 0 && !EndsInSlash(url) ==>
                  path[|base|] == '/' && path[|base| + 1] != '/' && path[|base|..] == DefaultFiles[n])
  {
    DefaultFileShape(n);
    var base := RootOf(root) + url;
    var addon := DefaultFiles[n];
    if |url| == 0 || EndsInSlash(url) {
      assert CreateFilePath(root, url, addon) == base + addon[1..];
      assert addon[1..][0] == addon[1] && addon[1] in addon[1..];
    } else {
      assert CreateFilePath(root, url, addon) == base + addon;
      assert addon[1] in addon[1..];
    }
  }

  /** The first default file adds nothing: the URL itself is tried first. */
  lemma FirstProbeIsUrl(root: Option<string>, url: string)
    ensures CreateFilePath(root, url, DefaultFiles[0]) == RootOf(root) + url
  {
    assert RootOf(root) + url + [] == RootOf(root) + url;
  }

  /** The outcome of the probe loop. */
  datatype Probe = NoMemory | NotFound | Found(n: nat, filename: string, contents: string)

  /**
   * The probe from default file `n` on: each path is allocated (a failure
   * ends the probe with 500) and opened; the first that opens is served.
   */
  function ProbeFrom(env: Env, reqNo: nat, url: string, n: nat): Probe
    requires n <= |DefaultFiles|
    decreases |DefaultFiles| - n
  {
    if n == |DefaultFiles| then NotFound
    else if !env.alloc(reqNo, SitePath(n)) then NoMemory
    else
      var path := CreateFilePath(env.root, url, DefaultFiles[n]);
      if path in env.files then Found(n, path, env.files[path])
      else ProbeFrom(env, reqNo, url, n + 1)
  }

  /** The probe of default file `m` allocated its path and did not find it. */
  predicate Missed(env: Env, reqNo: nat, url: string, m: nat)
    requires m < |DefaultFiles|
  {
    env.alloc(reqNo, SitePath(m)) && CreateFilePath(env.root, url, DefaultFiles[m]) !in env.files
  }

  /**
   * The default files are tried in table order and the first that opens
   * wins: a found file is the one at its index, its path was allocated
   * and opened, and every earlier default file was missed.
   */
  lemma {:induction false} ProbeFindsFirst(env: Env, reqNo: nat, url: string, n: nat)
    requires n <= |DefaultFiles|
    requires ProbeFrom(env, reqNo, url, n).Found?
    ensures var p := ProbeFrom(env, reqNo, url, n);
            && n <= p.n < |DefaultFiles|
            && p.filename == CreateFilePath(env.root, url, DefaultFiles[p.n])
            && env.alloc(reqNo, SitePath(p.n))
            && p.filename in env.files && p.contents == env.files[p.filename]
            && forall m :: n <= m < p.n ==> Missed(env, reqNo, url, m)
    decreases |DefaultFiles| - n
  {
    if env.alloc(reqNo, SitePath(n)) && CreateFilePath(env.root, url, DefaultFiles[n]) !in env.files {
      ProbeFindsFirst(env, reqNo, url, n + 1);
    }
  }

  /** No default file opens (404) exactly when every one is missed. */
  lemma {:induction false} ProbeNotFound(env: Env, reqNo: nat, url: string, n: nat)
    requires n <= |DefaultFiles|
    ensures ProbeFrom(env, reqNo, url, n).NotFound?
            <==> forall m :: n <= m < |DefaultFiles| ==> Missed(env, reqNo, url, m)
    decreases |DefaultFiles| - n
  {
    if n < |DefaultFiles| {
      ProbeNotFound(env, reqNo, url, n + 1);
      if !Missed(env, reqNo, url, n) {
        assert !ProbeFrom(env, reqNo, url, n).NotFound?;
      }
    }
  }

  /** The probe runs out of memory (500) at an allocation that fails after misses only. */
  lemma {:induction false} ProbeNoMemory(env: Env, reqNo: nat, url: string, n: nat)
    requires n <= |DefaultFiles|
    requires ProbeFrom(env, reqNo, url, n).NoMemory?
    ensures exists m :: n <= m < |DefaultFiles| && !env.alloc(reqNo, SitePath(m))
                        && forall j :: n <= j < m ==> Missed(env, reqNo, url, j)
    decreases |DefaultFiles| - n
  {
    if env.alloc(reqNo, SitePath(n)) {
      ProbeNoMemory(env, reqNo, url, n + 1);
      var m :| n + 1 <= m < |DefaultFiles| && !env.alloc(reqNo, SitePath(m))
               && forall j :: n + 1 <= j < m ==> Missed(env, reqNo, url, j);
      assert forall j :: n <= j < m ==> Missed(env, reqNo, url, j);
    }
  }

  /** The loop `for (n = 0, fd = -1; default_files[n]; n++)`. */
  method FindFile(env: Env, reqNo: nat, url: string) returns (p: Probe)
    ensures p == ProbeFrom(env, reqNo, url, 0)
  {
    var n := 0;
    while n < |DefaultFiles|
      invariant n <= |DefaultFiles|
      invariant ProbeFrom(env, reqNo, url, 0) == ProbeFrom(env, reqNo, url, n)
      decreases |DefaultFiles| - n
    {
      if !env.alloc(reqNo, SitePath(n)) {
        return NoMemory;
      }
      var filename := CreateFilePath(env.root, url, DefaultFiles[n]);
      if filename in env.files {
        return Found(n, filename, env.files[filename]);
      }
      n := n + 1;
    }
    return NotFound;
  }

  /**
   * The chunk sizes of the transfer loop for `len` bytes: 512 while at
   * least 512 remain, then the rest in one piece.
   */
  function Chunks(len: nat): seq<nat>
    decreases len
  {
    if len == 0 then []
    else
      var size := if len < ChunkSize then len else ChunkSize;
      [size] + Chunks(len - size)
  }

  function Sum(s: seq<nat>): nat
  {
    if |s| == 0 then 0 else s[0] + Sum(s[1..])
  }

  lemma {:induction false} SumAppend(a: seq<nat>, b: seq<nat>)
    ensures Sum(a + b) == Sum(a) + Sum(b)
  {
    if |a| > 0 {
      assert (a + b)[1..] == a[1..] + b;
      SumAppend(a[1..], b);
    } else {
      assert a + b == b;
    }
  }

  /**
   * Every chunk holds between 1 and 512 bytes, all but the last exactly
   * 512, and together they are the file length: nothing beyond the file is
   * written and nothing of it is skipped.
   */
  lemma {:induction false} ChunksCoverFile(len: nat)
    ensures var c := Chunks(len);
            && Sum(c) == len
            && (forall i :: 0 <= i < |c| ==> 0 < c[i] <= ChunkSize)
            && (forall i :: 0 <= i < |c| - 1 ==> c[i] == ChunkSize)
            && |c| == (len + ChunkSize - 1) / ChunkSize
    decreases len
  {
    if len > 0 {
      var size := if len < ChunkSize then len else ChunkSize;
      ChunksCoverFile(len - size);
      var c := Chunks(len);
      assert c[1..] == Chunks(len - size);
    }
  }

  /**
   * The transfer loop: while bytes remain, read a chunk and write it. The
   * read returns what was asked for, as `_filelength` is the file's size.
   * The chunks written are those of `Chunks`, and together they are the
   * whole file.
   */
  method Transfer(s: Socket, data: string) returns (ghost sizes: seq<nat>)
    requires s.Valid()
    modifies s
    ensures s.Valid() && s.pos == old(s.pos)
    ensures s.output == old(s.output) + data
    ensures sizes == Chunks(|data|)
  {
    var fileLen: nat := |data|;
    var size := ChunkSize;
    var off: nat := 0;
    sizes := [];
    while fileLen > 0
      invariant s.Valid() && s.pos == old(s.pos)
      invariant off + fileLen == |data|
      invariant s.output == old(s.output) + data[..off]
      invariant sizes + Chunks(fileLen) == Chunks(|data|)
      invariant fileLen > 0 ==> size == ChunkSize
      decreases fileLen
    {
      if fileLen < ChunkSize {
        size := fileLen;
      }
      var n := size;
      s.Write(data[off..off + n]);
      assert data[..off] + data[off..off + n] == data[..off + n];
      sizes := sizes + [n];
      assert Chunks(fileLen) == [n] + Chunks(fileLen - n);
      fileLen := fileLen - n;
      off := off + n;
    }
    assert data[..off] == data;
  }

  /** The `st_mtime` the 304 test reads: the file's, or what the buffer held when `stat` failed. */
  function Mtime(env: Env, filename: string): int
  {
    if filename in env.stat then env.stat[filename] else env.staleMtime
  }

  /** The If-Modified-Since test of a file served without a handler. */
  predicate NotModified(env: Env, req: Request, filename: string)
  {
    env.useFileTime && req.ims != 0 && Mtime(env, filename) <= req.ims
  }

  /** What follows the status and server lines for a file that is served. */
  function FileBody(env: Env, reqNo: nat, req: Request, url: string, handler: Option<nat>, contents: string): string
  {
    var mimeType := Some(GetMimeType(Some(url), env.beforeUrl));
    match handler
    case Some(h) => HeaderBottom(req.connection, mimeType, -1) + env.handler(h, req, contents)
    case None =>
      HeaderBottom(req.connection, mimeType, |contents|)
      + (if req.verb == MethodHead || !env.alloc(reqNo, SiteData) then [] else contents)
  }

  /**
   * The answer for a file the probe opened: 304 for an unmodified file
   * without a handler, else status 200 and the file or its handler's output.
   */
  function FoundReply(env: Env, reqNo: nat, req: Request, url: string, filename: string, contents: string): (r: (Request, string))
    ensures r.0 == req
  {
    var handler := GetMimeHandler(Some(filename), env.beforeFile, env.handlers);
    if handler.None? && NotModified(env, req, filename) then ErrorReply(env, req, 304)
    else (req, HeaderTop(env.version, 200, "Ok") + FileBody(env, reqNo, req, url, handler, contents))
  }

  /** The name `NutCgiProcessRequest` looks up: the URL after `cgi-bin/`. */
  function CgiName(url: string): (name: string)
    requires PrefixCI(url, "cgi-bin/")
    ensures url == url[..8] + name
  {
    url[8..]
  }

  /** A URL a registered CGI answers. */
  predicate CgiServes(env: Env, url: string)
  {
    PrefixCI(url, "cgi-bin/") && CgiName(url) in env.cgiNames
  }

  /**
   * `NutHttpProcessFileRequest`: the request afterwards and the text sent.
   * Authorization comes first, then CGI, then the probe. A registered CGI
   * writes its output and leaves the request alone; an unregistered CGI
   * name is a 404. Every 401, 404 or 500 forces the request to close.
   */
  function FileReply(env: Env, reqNo: nat, req: Request): (r: (Request, string))
    requires req.url.Some?
    ensures r.0 == req.(connection := r.0.connection)
    ensures req.connection == ModeClose ==> r.0.connection == ModeClose
  {
    var url := req.url.value;
    if env.authFails(req) then ErrorReply(env, req, 401)
    else if PrefixCI(url, "cgi-bin/") then
      if CgiName(url) in env.cgiNames then (req, env.cgi(req)) else ErrorReply(env, req, 404)
    else
      match ProbeFrom(env, reqNo, url, 0)
      case NoMemory => ErrorReply(env, req, 500)
      case NotFound => ErrorReply(env, req, 404)
      case Found(_, filename, contents) => FoundReply(env, reqNo, req, url, filename, contents)
  }

  /**
   * The status the file responder sends, read back from its status line:
   * 401 when authorization fails, 404 for an unregistered CGI name, 500
   * when a path cannot be allocated, 404 when no default file opens, 304
   * for an unmodified file without a handler, and 200 otherwise. (A
   * registered CGI answers for itself.)
   */
  lemma FileReplyStatus(env: Env, reqNo: nat, req: Request)
    requires req.url.Some?
    requires env.authFails(req) || !CgiServes(env, req.url.value)
    ensures var text := FileReply(env, reqNo, req).1;
            var p := ProbeFrom(env, reqNo, req.url.value, 0);
            && |text| >= 9 && text[..9] == "HTTP/1.1 "
            && Atol(text[9..]) ==
               (if env.authFails(req) then 401
                else if PrefixCI(req.url.value, "cgi-bin/") then 404
                else if p.NoMemory? then 500
                else if p.NotFound? then 404
                else if GetMimeHandler(Some(p.filename), env.beforeFile, env.handlers).None?
                        && NotModified(env, req, p.filename) then 304
                else 200)
  {
    var url := req.url.value;
    var p := ProbeFrom(env, reqNo, url, 0);
    if env.authFails(req) {
      ErrorReplyStatus(env, req, 401);
    } else if PrefixCI(url, "cgi-bin/") {
      ErrorReplyStatus(env, req, 404);
    } else if p.NoMemory? {
      ErrorReplyStatus(env, req, 500);
    } else if p.NotFound? {
      ErrorReplyStatus(env, req, 404);
    } else {
      FoundReplyStatus(env, reqNo, req, url, p.filename, p.contents);
    }
  }

  /**
   * When `stat` fails on the opened file, the 304 test compares the
   * `st_mtime` left in the buffer instead of the file's time: with file
   * times in use and no handler, the file is answered 304 whenever that
   * stale time is not newer than If-Modified-Since, whatever the file holds.
   */
  lemma StaleTimeGives304(env: Env, reqNo: nat, req: Request)
    requires req.url.Some? && !env.authFails(req) && !PrefixCI(req.url.value, "cgi-bin/")
    requires ProbeFrom(env, reqNo, req.url.value, 0).Found?
    requires ProbeFrom(env, reqNo, req.url.value, 0).filename !in env.stat
    requires GetMimeHandler(Some(ProbeFrom(env, reqNo, req.url.value, 0).filename), env.beforeFile, env.handlers).None?
    requires env.useFileTime && req.ims != 0 && env.staleMtime <= req.ims
    ensures FileReply(env, reqNo, req) == ErrorReply(env, req, 304)
    ensures |FileReply(env, reqNo, req).1| >= 9 && Atol(FileReply(env, reqNo, req).1[9..]) == 304
  {
    FileReplyStatus(env, reqNo, req);
  }

  lemma FoundReplyStatus(env: Env, reqNo: nat, req: Request, url: string, filename: string, contents: string)
    ensures var text := FoundReply(env, reqNo, req, url, filename, contents).1;
            && |text| >= 9 && text[..9] == "HTTP/1.1 "
            && Atol(text[9..]) ==
               (if GetMimeHandler(Some(filename), env.beforeFile, env.handlers).None?
                   && NotModified(env, req, filename) then 304 else 200)
  {
    var handler := GetMimeHandler(Some(filename), env.beforeFile, env.handlers);
    if handler.None? && NotModified(env, req, filename) {
      ErrorReplyStatus(env, req, 304);
    } else {
      StatusLineReadsBack(env.version, 200, "Ok", FileBody(env, reqNo, req, url, handler, contents));
    }
  }

  /**
   * A file served without a handler: the header announces the file's
   * length and ends in an empty line; a HEAD request gets that header and
   * nothing else, any other request the whole file after it, unless the
   * transfer buffer cannot be allocated.
   */
  lemma FileFollowsHeader(env: Env, reqNo: nat, req: Request, url: string, contents: string)
    ensures var header := FileBody(env, reqNo, req, url, None, contents)[..|FileBody(env, reqNo, req, url, None, contents)| - (if req.verb == MethodHead || !env.alloc(reqNo, SiteData) then 0 else |contents|)];
            && header == HeaderBottom(req.connection, Some(GetMimeType(Some(url), env.beforeUrl)), |contents|)
            && header[|header| - 4..] == CRLF + CRLF
            && (req.verb == MethodHead ==> FileBody(env, reqNo, req, url, None, contents) == header)
            && (req.verb != MethodHead && env.alloc(reqNo, SiteData) ==>
                  FileBody(env, reqNo, req, url, None, contents) == header + contents)
  {
    var header := HeaderBottom(req.connection, Some(GetMimeType(Some(url), env.beforeUrl)), |contents|);
    var body := FileBody(env, reqNo, req, url, None, contents);
    if req.verb == MethodHead || !env.alloc(reqNo, SiteData) {
      assert body == header + [];
    } else {
      assert body[..|body| - |contents|] == header;
    }
  }

  /** `NutHttpProcessFileRequest` writing to the socket. */
  method ProcessFileRequest(s: Socket, env: Env, reqNo: nat, req: Request) returns (req': Request)
    requires s.Valid() && req.url.Some?
    modifies s
    ensures s.Valid() && s.pos == old(s.pos)
    ensures req' == FileReply(env, reqNo, req).0
    ensures s.output == old(s.output) + FileReply(env, reqNo, req).1
  {
    var url := req.url.value;
    if env.authFails(req) {
      req' := SendError(s, env, req, 401);
      return;
    }
    if PrefixCI(url, "cgi-bin/") {
      if CgiName(url) in env.cgiNames {
        s.Write(env.cgi(req));
        req' := req;
      } else {
        req' := SendError(s, env, req, 404);
      }
      return;
    }
    var probe := FindFile(env, reqNo, url);
    if probe.NoMemory? {
      req' := SendError(s, env, req, 500);
    } else if probe.NotFound? {
      req' := SendError(s, env, req, 404);
    } else {
      req' := SendFound(s, env, reqNo, req, url, probe.filename, probe.contents);
    }
  }

  /** The part of `NutHttpProcessFileRequest` after a file has been opened. */
  method SendFound(s: Socket, env: Env, reqNo: nat, req: Request, url: string, filename: string, contents: string)
    returns (req': Request)
    requires s.Valid()
    modifies s
    ensures s.Valid() && s.pos == old(s.pos)
    ensures req' == FoundReply(env, reqNo, req, url, filename, contents).0
    ensures s.output == old(s.output) + FoundReply(env, reqNo, req, url, filename, contents).1
  {
    var handler := GetMimeHandler(Some(filename), env.beforeFile, env.handlers);
    if handler.None? && env.useFileTime {
      var mtime := if filename in env.stat then env.stat[filename] else env.staleMtime;
      if req.ims != 0 && mtime <= req.ims {
        req' := SendError(s, env, req, 304);
        return;
      }
    }
    ghost var before := s.output;
    var top := HeaderTop(env.version, 200, "Ok");
    s.Write(top);
    var mimeType := Some(GetMimeType(Some(url), env.beforeUrl));
    var fileLen := |contents|;
    var rest: string;
    if handler.Some? {
      var bottom := HeaderBottom(req.connection, mimeType, -1);
      s.Write(bottom);
      var out := env.handler(handler.value, req, contents);
      s.Write(out);
      AppendAssoc(before, top, bottom);
      AppendAssoc(before + top, bottom, out);
      rest := bottom + out;
    } else {
      var bottom := HeaderBottom(req.connection, mimeType, fileLen);
      s.Write(bottom);
      var data: string := [];
      if req.verb != MethodHead && env.alloc(reqNo, SiteData) {
        data := contents;
        ghost var sizes := Transfer(s, contents);
      } else {
        assert before + top + bottom + data == before + top + bottom;
      }
      AppendAssoc(before + top, bottom, data);
      rest := bottom + data;
    }
    assert rest == FileBody(env, reqNo, req, url, handler, contents);
    AppendAssoc(before, top, rest);
    req' := req;
  }
}
