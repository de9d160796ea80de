/**
 * The response texts of the HTTP engine: the status line and server line
 * (`NutHttpSendHeaderTop`), the closing header lines
 * (`NutHttpSendHeaderBot`, `NutHttpSendHeaderBottom`) and the canned
 * error page (`NutHttpSendError`), following the status line of section
 * 6.1 of RFC 2616 and the Basic challenge of section 2 of RFC 2617.
 */
module Responses {
  import opened Options
  import opened CString
  import opened Requests
  import opened Streams

  const CRLF: string := "\r\n"

  /** `NutHttpSendHeaderTop`: the status line and the Server line. */
  function HeaderTop(version: string, status: nat, title: string): string
  {
    "HTTP/" + Decimal(HttpMajorVersion) + "." + Decimal(HttpMinorVersion) + " " + Decimal(status) + " " + title + CRLF
    + "Server: Ethernut " + version + CRLF
  }

  /**
   * The status code written into the status line is the one a reader gets
   * back with `atol`, whatever follows the status line and server line.
   */
  lemma StatusLineReadsBack(version: string, status: nat, title: string, more: string)
    ensures (HeaderTop(version, status, title) + more)[..9] == "HTTP/1.1 "
    ensures Atol((HeaderTop(version, status, title) + more)[9..]) == status
  {
    var rest := " " + title + CRLF + "Server: Ethernut " + version + CRLF + more;
    assert Decimal(1) == "1";
    assert HeaderTop(version, status, title) + more == "HTTP/1.1 " + (Decimal(status) + rest);
    AtolDecimalThen(status, rest);
  }

  /** The Content-Type line when a type is given, the Content-Length line when the length is not negative. */
  function ContentLines(mimeType: Option<string>, bytes: int): string
  {
    (if mimeType.Some? then "Content-Type: " + mimeType.value + CRLF else [])
    + (if bytes >= 0 then "Content-Length: " + Decimal(bytes) + CRLF else [])
  }

  /** The Connection line and the empty line that ends the header. */
  function ConnectionLine(mode: Mode): string
  {
    "Connection: " + (if mode == ModeKeepAlive then "Keep-Alive" else "close") + CRLF + CRLF
  }

  /** `NutHttpSendHeaderBot`, the older form without a Connection line. */
  function HeaderBot(mimeType: Option<string>, bytes: int): string
  {
    ContentLines(mimeType, bytes) + CRLF
  }

  /** `NutHttpSendHeaderBottom`. */
  function HeaderBottom(mode: Mode, mimeType: Option<string>, bytes: int): string
  {
    ContentLines(mimeType, bytes) + ConnectionLine(mode)
  }

  /** Both header endings finish the header with an empty line. */
  lemma HeadersEndInEmptyLine(mode: Mode, mimeType: Option<string>, bytes: int)
    ensures var bot := HeaderBot(mimeType, bytes);
            |bot| >= 2 && bot[|bot| - 2..] == CRLF
    ensures var bottom := HeaderBottom(mode, mimeType, bytes);
            |bottom| >= 4 && bottom[|bottom| - 4..] == CRLF + CRLF
  {
  }

  /**
   * The two header endings differ only in the Connection line: it says
   * Keep-Alive exactly when the request is to be kept alive, and close
   * otherwise, also when the mode was never set.
   */
  lemma HeaderBottomExtendsBot(mode: Mode, mimeType: Option<string>, bytes: int)
    ensures HeaderBottom(mode, mimeType, bytes) ==
            HeaderBot(mimeType, bytes)[..|HeaderBot(mimeType, bytes)| - 2]
            + "Connection: " + (if mode == ModeKeepAlive then "Keep-Alive" else "close") + CRLF + CRLF
  {
    var c := ContentLines(mimeType, bytes);
    assert HeaderBot(mimeType, bytes)[..|HeaderBot(mimeType, bytes)| - 2] == c;
  }

  /** The title `NutHttpSendError` gives each status. */
  function Title(status: nat): string
  {
    if status == 304 then "Not Modified"
    else if status == 400 then "Bad Request"
    else if status == 401 then "Unauthorized"
    else if status == 404 then "Not Found"
    else if status == 500 then "Internal Error"
    else if status == 501 then "Not Implemented"
    else "Error"
  }

  /** The six known codes have their own titles; every other code is just "Error". */
  lemma TitleIsErrorExactlyForUnknown(status: nat)
    ensures Title(status) == "Error" <==> status !in {304, 400, 401, 404, 500, 501}
  {
  }

  /**
   * The realm of the 401 challenge: the URL up to its last `/`, or `.` when
   * it has none. Cutting there leaves a prefix of the URL that the `/`
   * follows, and no later `/`.
   */
  function Realm(url: string): (realm: string)
    ensures '/' !in url ==> realm == "."
    ensures '/' in url ==> |realm| < |url| && realm == url[..|realm|] && url[|realm|] == '/'
                           && '/' !in url[|realm| + 1..]
  {
    match FindLast(url, '/')
    case None => "."
    case Some(i) => url[..i]
  }

  function AuthLine(url: string): string
  {
    "WWW-Authenticate: Basic realm=\"" + Realm(url) + "\"" + CRLF
  }

  function ErrorBody(status: nat, title: string): string
  {
    var code := Decimal(status) + " " + title;
    "<HTML><HEAD><TITLE>" + code + "</TITLE></HEAD><BODY>" + code + "</BODY></HTML>" + CRLF
  }

  /**
   * `NutHttpSendError`: the request afterwards and the text sent. Only the
   * connection mode changes: a status of 400 or more forces close, a lower
   * one (304) leaves the mode as it was.
   */
  function ErrorReply(env: Env, req: Request, status: nat): (r: (Request, string))
    requires status == 401 ==> req.url.Some?
    ensures r.0 == req.(connection := r.0.connection)
    ensures r.0.connection == ModeClose <==> status >= 400 || req.connection == ModeClose
    ensures status < 400 ==> r.0.connection == req.connection
  {
    var title := Title(status);
    var req' := if status >= 400 then req.(connection := ModeClose) else req;
    (req', HeaderTop(env.version, status, title) + ErrorTail(req, req'.connection, status))
  }

  /** What follows the status line and server line of an error page. */
  function ErrorTail(req: Request, mode: Mode, status: nat): string
    requires status == 401 ==> req.url.Some?
  {
    (if status == 401 then AuthLine(req.url.value) else [])
    + HeaderBottom(mode, Some("text/html"), -1)
    + ErrorBody(status, Title(status))
  }

  /**
   * A 304 goes through the error page: it carries the HTML body, has no
   * Content-Length line, and keeps the connection mode, where section
   * 10.3.5 of RFC 2616 forbids a body.
   */
  lemma NotModifiedHasBody(env: Env, req: Request)
    ensures ErrorReply(env, req, 304).0 == req
    ensures ErrorReply(env, req, 304).1 ==
            HeaderTop(env.version, 304, "Not Modified") + "Content-Type: text/html" + CRLF
            + ConnectionLine(req.connection) + ErrorBody(304, "Not Modified")
    ensures |ErrorBody(304, "Not Modified")| > 0
  {
    var top := HeaderTop(env.version, 304, "Not Modified");
    var body := ErrorBody(304, "Not Modified");
    assert Title(304) == "Not Modified";
    assert ContentLines(Some("text/html"), -1) == "Content-Type: text/html" + CRLF;
    assert ErrorTail(req, req.connection, 304) ==
           "Content-Type: text/html" + CRLF + ConnectionLine(req.connection) + body;
  }

  /** The error page reads back the status it was sent for. */
  lemma ErrorReplyStatus(env: Env, req: Request, status: nat)
    requires status == 401 ==> req.url.Some?
    ensures |ErrorReply(env, req, status).1| >= 9
    ensures ErrorReply(env, req, status).1[..9] == "HTTP/1.1 "
    ensures Atol(ErrorReply(env, req, status).1[9..]) == status
  {
    var more := ErrorTail(req, ErrorReply(env, req, status).0.connection, status);
    StatusLineReadsBack(env.version, status, Title(status), more);
  }

  /** `NutHttpSendError` writing to the socket. */
  method SendError(s: Socket, env: Env, req: Request, status: nat) returns (req': Request)
    requires s.Valid() && (status == 401 ==> req.url.Some?)
    modifies s
    ensures s.Valid() && s.pos == old(s.pos)
    ensures req' == ErrorReply(env, req, status).0
    ensures s.output == old(s.output) + ErrorReply(env, req, status).1
  {
    var title := Title(status);
    req' := req;
    if status >= 400 {
      req' := req'.(connection := ModeClose);
    }
    ghost var before := s.output;
    var top := HeaderTop(env.version, status, title);
    s.Write(top);
    var auth: string := [];
    if status == 401 {
      auth := AuthLine(req.url.value);
      s.Write(auth);
    } else {
      assert before + top + auth == before + top;
    }
    AppendAssoc(before, top, auth);
    var bottom := HeaderBottom(req'.connection, Some("text/html"), -1);
    s.Write(bottom);
    AppendAssoc(before, top + auth, bottom);
    var body := ErrorBody(status, title);
    s.Write(body);
    AppendAssoc(before, top + auth + bottom, body);
    AppendAssoc(top, auth, bottom);
    AppendAssoc(top, auth + bottom, body);
    ghost var tail := ErrorTail(req, req'.connection, status);
    assert tail == auth + bottom + body;
    assert ErrorReply(env, req, status).1 == top + tail;
  }
}
