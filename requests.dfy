/**
 * The request record of the HTTP engine (`REQUEST`), the environment the
 * engine runs in, and the parsing of the request line: `NextWord`, the
 * method, the protocol version with the connection mode it implies, and
 * the per-connection keep-alive budget.
 */
module Requests {
  import opened Options
  import opened CString
  import opened Query

  /** `req_method`: zero until the request line has been parsed. */
  datatype Method = MethodUnset | MethodGet | MethodPost | MethodHead

  /**
   * `req_connection`: `HTTP_CONN_CLOSE`, `HTTP_CONN_KEEP_ALIVE`, or the
   * zero that `memset` leaves when the client sent no usable `Connection:`
   * header.
   */
  datatype Mode = ModeUnset | ModeClose | ModeKeepAlive

  /**
   * One request. The C fields that hold heap copies are `Option`s (None
   * for NULL); `query` is the raw text after `?` and `table` the outcome
   * of `NutHttpProcessQueryString` on it.
   */
  datatype Request = Request(
    verb: Method,
    version: nat,
    connection: Mode,
    url: Option<string>,
    query: Option<string>,
    table: QueryTable,
    contentType: Option<string>,
    cookie: Option<string>,
    auth: Option<string>,
    agent: Option<string>,
    referer: Option<string>,
    host: Option<string>,
    length: int,
    ims: int)

  const HttpMajorVersion: nat := 1
  const HttpMinorVersion: nat := 1
  /** `HTTP_KEEP_ALIVE_REQ`: the initial value of `keep_alive_max`. */
  const KeepAliveRequests: nat := 5

  /** `CreateRequestInfo`: every field zero, except the version 1.1. */
  function NewRequest(): Request
  {
    Request(MethodUnset, HttpMajorVersion * 10 + HttpMinorVersion, ModeUnset,
            None, None, NoQuery, None, None, None, None, None, None, 0, 0)
  }

  /** The header fields `HeaderFieldValue` fills: only the first occurrence counts. */
  datatype Field = Authorization | ContentType | Cookie | UserAgent | Referer | Host

  /** The calls to `malloc` the engine makes while serving one request. */
  datatype AllocSite =
    | SiteRequest          // CreateRequestInfo
    | SiteMethod           // the request-line buffer
    | SiteLine             // the header-line buffer
    | SiteField(f: Field)  // HeaderFieldValue
    | SiteQuery            // the copy of the query string
    | SiteTable            // the req_qptrs table of NutHttpProcessQueryString
    | SiteUrl              // the copy of the path
    | SitePath(n: nat)     // CreateFilePath for default file n
    | SiteData             // the transfer buffer

  /**
   * Everything the engine consults that lies outside it: the server's
   * configuration, the file system, the results of `malloc` (by request
   * number and call site), and the external routines, which are left
   * uninterpreted.
   */
  datatype Env = Env(
    version: string,                         // NutVersionString()
    root: Option<string>,                    // http_root
    useFileTime: bool,                       // HTTP_OF_USE_FILE_TIME in http_optflags
    files: map<string, string>,              // what _open finds, with its contents
    stat: map<string, int>,                  // st_mtime for the files stat() knows
    staleMtime: int,                         // s.st_mtime left in place when stat() fails
    handlers: set<nat>,                      // mime entries with a registered handler
    beforeFile: string,                      // the bytes in memory before the file name
    beforeUrl: string,                       // the bytes in memory before req_url
    staleTail: string,                       // the line buffer past a line of exactly 11 characters
    alloc: (nat, AllocSite) -> bool,         // does this malloc succeed?
    authFails: Request -> bool,              // NutHttpAuthValidate(req) != 0
    cgiNames: set<string>,                   // the names registered after the cgi-bin/ prefix
    cgi: Request -> string,                  // output of the registered CGI function
    handler: (nat, Request, string) -> string, // output of a mime handler on a file
    decodePath: string -> Option<string>,    // NutDecodePath: None when it returns 0
    timeParse: string -> int)                // RfcTimeParse

  /** The length of the leading run of non-blank characters. */
  function WordEnd(s: string): (i: nat)
    ensures i <= |s|
    ensures forall k :: 0 <= k < i ==> !IsBlank(s[k])
    ensures i < |s| ==> IsBlank(s[i])
  {
    if |s| == 0 || IsBlank(s[0]) then 0 else 1 + WordEnd(s[1..])
  }

  /**
   * `NextWord`: the word at the start of `s` is cut off at the first blank
   * (which is overwritten by the terminator), and the text after the
   * blanks that follow is returned. The pair is (word, rest).
   */
  function NextWord(s: string): (r: (string, string))
    ensures r.0 <= s && forall k :: 0 <= k < |r.0| ==> !IsBlank(r.0[k])
    ensures |r.0| + |r.1| <= |s| && r.1 == s[|s| - |r.1|..]
    ensures |r.1| > 0 ==> !IsBlank(r.1[0])
  {
    var i := WordEnd(s);
    (s[..i], if i < |s| then SkipBlanks(s[i + 1..]) else [])
  }

  predicate NoBlanks(w: string)
  {
    forall k :: 0 <= k < |w| ==> !IsBlank(w[k])
  }

  lemma {:induction false} WordEndOf(w: string, rest: string)
    requires NoBlanks(w)
    requires |rest| > 0 ==> IsBlank(rest[0])
    ensures WordEnd(w + rest) == |w|
  {
    if |w| > 0 {
      assert (w + rest)[1..] == w[1..] + rest;
      WordEndOf(w[1..], rest);
    } else {
      assert w + rest == rest;
    }
  }

  lemma {:induction false} SkipBlanksOf(sep: string, rest: string)
    requires forall k :: 0 <= k < |sep| ==> IsBlank(sep[k])
    requires |rest| > 0 ==> !IsBlank(rest[0])
    ensures SkipBlanks(sep + rest) == rest
  {
    if |sep| > 0 {
      assert (sep + rest)[1..] == sep[1..] + rest;
      SkipBlanksOf(sep[1..], rest);
    } else {
      assert sep + rest == rest;
    }
  }

  /**
   * `NextWord` takes apart what a word, a run of blanks and a rest that
   * does not start with a blank put together.
   */
  lemma NextWordJoin(w: string, sep: string, rest: string)
    requires NoBlanks(w)
    requires |sep| > 0 && forall k :: 0 <= k < |sep| ==> IsBlank(sep[k])
    requires |rest| > 0 ==> !IsBlank(rest[0])
    ensures NextWord(w + sep + rest) == (w, rest)
  {
    var s := w + sep + rest;
    assert s == w + (sep + rest);
    WordEndOf(w, sep + rest);
    assert s[..|w|] == w;
    assert s[|w| + 1..] == sep[1..] + rest;
    SkipBlanksOf(sep[1..], rest);
  }

  /** A last word, with nothing after it, comes back whole with an empty rest. */
  lemma NextWordLast(w: string)
    requires NoBlanks(w)
    ensures NextWord(w) == (w, [])
  {
    WordEndOf(w, []);
    assert w + [] == w;
  }

  /**
   * The three `NextWord` calls of `NutHttpProcessRequest` on the request
   * line: (method, path, protocol), each cut at its first blank.
   */
  function RequestLine(line: string): (r: (string, string, string))
    ensures NoBlanks(r.0) && NoBlanks(r.1) && NoBlanks(r.2)
  {
    var (m, afterMethod) := NextWord(line);
    var (p, afterPath) := NextWord(afterMethod);
    var (v, _) := NextWord(afterPath);
    (m, p, v)
  }

  /** A well-formed request line `METHOD SP path SP protocol` splits back into its parts. */
  lemma RequestLineJoin(m: string, p: string, v: string)
    requires NoBlanks(m) && NoBlanks(p) && NoBlanks(v) && |p| > 0
    ensures RequestLine(m + " " + p + " " + v) == (m, p, v)
  {
    assert IsBlank(" "[0]);
    NextWordJoin(p, " ", v);
    assert m + " " + p + " " + v == m + " " + (p + " " + v);
    NextWordJoin(m, " ", p + " " + v);
    NextWordLast(v);
  }

  /** The method names the engine serves, compared ignoring case. */
  function MethodOf(word: string): (m: Option<Method>)
    ensures m != Some(MethodUnset)
  {
    if EqualCI(word, "GET") then Some(MethodGet)
    else if EqualCI(word, "HEAD") then Some(MethodHead)
    else if EqualCI(word, "POST") then Some(MethodPost)
    else None
  }

  /**
   * The protocol version and the connection mode it implies. An HTTP/1.0
   * client gets version 10 and keep-alive only when it asked for it; any
   * other protocol keeps the version and gets keep-alive unless the client
   * asked for close. Either way the mode is decided afterwards.
   */
  function Negotiate(req: Request, protocol: string): (r: Request)
    ensures r.version == (if EqualCI(protocol, "HTTP/1.0") then 10 else req.version)
    ensures r.connection != ModeUnset
    ensures EqualCI(protocol, "HTTP/1.0") ==>
              (r.connection == ModeKeepAlive <==> req.connection == ModeKeepAlive)
    ensures !EqualCI(protocol, "HTTP/1.0") ==>
              (r.connection == ModeClose <==> req.connection == ModeClose)
    ensures r == req.(version := r.version, connection := r.connection)
  {
    if EqualCI(protocol, "HTTP/1.0") then
      req.(version := 10,
           connection := if req.connection != ModeKeepAlive then ModeClose else req.connection)
    else if req.connection != ModeClose then req.(connection := ModeKeepAlive)
    else req
  }

  /**
   * The keep-alive budget: while `keep_alive_max` is positive it drops by
   * one per request; once it is zero the request is forced to close.
   */
  function Budget(keep: nat, req: Request): (r: (nat, Request))
    ensures r.0 == if keep > 0 then keep - 1 else 0
    ensures r.1 == req.(connection := r.1.connection)
    ensures r.1.connection == ModeClose <==> keep == 0 || req.connection == ModeClose
    ensures keep > 0 ==> r.1.connection == req.connection
  {
    if keep > 0 then (keep - 1, req) else (0, req.(connection := ModeClose))
  }
}
