/**
 * `NutHttpProcessRequest`: the loop that serves the requests of one
 * connection. Each pass allocates a fresh request, reads the request line
 * and the header lines, answers, and goes on only while the connection is
 * to be kept alive; at most `HTTP_KEEP_ALIVE_REQ` passes count down the
 * keep-alive budget before the connection is forced to close.
 */
module Engine {
  import opened Options
  import opened CString
  import opened Query
  import opened Requests
  import opened Headers
  import opened Responses
  import opened Files
  import opened Streams

  /**
   * The path cut at its first `?`: the part before it, and the query text
   * after it when there is one.
   */
  function SplitQuery(path: string): (r: (string, Option<string>))
    ensures r.1.None? ==> r.0 == path && '?' !in path
    ensures r.1.Some? ==> path == r.0 + "?" + r.1.value && '?' !in r.0
  {
    match Find(path, '?')
    case None => (path, None)
    case Some(i) =>
      assert path == path[..i] + "?" + path[i + 1..];
      (path[..i], Some(path[i + 1..]))
  }

  /**
   * One pass of the loop: what it sends, where it leaves the input, the
   * budget afterwards, and whether the loop goes on.
   */
  datatype Round = Round(out: string, pos: nat, keep: nat, more: bool)

  /**
   * The request as the file responder gets it: the query split off the
   * path, copied and parsed, and the path copied into `req_url`; None
   * when the copy of the query or of the path cannot be allocated.
   */
  function Prepare(env: Env, reqNo: nat, req: Request, path: string): (r: Option<Request>)
    ensures r.None? <==> (SplitQuery(path).1.Some? && !env.alloc(reqNo, SiteQuery)) || !env.alloc(reqNo, SiteUrl)
    ensures r.Some? ==> r.value.url == Some(SplitQuery(path).0) && r.value.connection == req.connection
  {
    var (url, query) := SplitQuery(path);
    if query.Some? && !env.alloc(reqNo, SiteQuery) then None
    else
      var req := if query.Some? then req.(query := query, table := ParseQuery(query, env.alloc(reqNo, SiteTable))) else req;
      if !env.alloc(reqNo, SiteUrl) then None
      else Some(req.(url := Some(url)))
  }

  /**
   * The answer to a prepared request, and the request it leaves: 400 when
   * the path does not decode, the file responder's answer otherwise.
   */
  function Respond(env: Env, reqNo: nat, req: Request): (r: (Request, string))
    requires req.url.Some?
    ensures req.connection == ModeClose ==> r.0.connection == ModeClose
  {
    match env.decodePath(req.url.value)
    case None => ErrorReply(env, req, 400)
    case Some(decoded) => FileReply(env, reqNo, req.(url := Some(decoded)))
  }

  /**
   * A prepared request whose path decodes to the URL of a registered CGI
   * and passes authorization: the one kind of answer without a status line
   * of the server's own.
   */
  predicate ServesCgi(env: Env, req: Request)
    requires req.url.Some?
  {
    match env.decodePath(req.url.value)
    case None => false
    case Some(decoded) => !env.authFails(req.(url := Some(decoded))) && CgiServes(env, decoded)
  }

  /**
   * The end of a pass once the method, path and protocol are known and the
   * budget has been applied. When an allocation fails nothing is sent and
   * the loop ends; otherwise the loop goes on exactly when the answer
   * leaves the request to be kept alive.
   */
  function Dispatch(env: Env, reqNo: nat, req: Request, path: string, pos: nat, keep: nat): (o: Round)
    ensures o.pos == pos && o.keep == keep
    ensures Prepare(env, reqNo, req, path).None? ==> o.out == [] && !o.more
    ensures Prepare(env, reqNo, req, path).Some? ==>
              (o.more <==> Respond(env, reqNo, Prepare(env, reqNo, req, path).value).0.connection != ModeClose)
    ensures o.more ==> req.connection != ModeClose
  {
    match Prepare(env, reqNo, req, path)
    case None => Round([], pos, keep, false)
    case Some(prepared) =>
      var (req', text) := Respond(env, reqNo, prepared);
      Round(text, pos, keep, req'.connection != ModeClose)
  }

  /**
   * The answer to a request whose request line is `line` and whose header
   * lines have filled `req`, with the input at `pos`: 501 for an unknown
   * method and 400 for a missing path or protocol, both ending the loop;
   * otherwise the version and connection mode are settled, the budget
   * applied, and the request dispatched.
   */
  function Answer(env: Env, reqNo: nat, req: Request, line: string, pos: nat, keep: nat): (o: Round)
    ensures o.pos == pos
    ensures o.more ==> 0 < keep && o.keep == keep - 1
  {
    var (m, path, protocol) := RequestLine(line);
    match MethodOf(m)
    case None => Round(ErrorReply(env, req, 501).1, pos, keep, false)
    case Some(verb) =>
      var req := req.(verb := verb);
      if |path| == 0 || |protocol| == 0 then Round(ErrorReply(env, req, 400).1, pos, keep, false)
      else
        var (keep', req) := Budget(keep, Negotiate(req, protocol));
        Dispatch(env, reqNo, req, path, pos, keep')
  }

  /**
   * One pass of `NutHttpProcessRequest` on the lines from `pos` on, for the
   * `reqNo`-th request of the connection with `keep` requests of budget
   * left. A pass goes on only after reading a request line, and only with
   * budget left, which it uses up by one.
   */
  function RoundAt(env: Env, input: seq<string>, pos: nat, reqNo: nat, keep: nat): (o: Round)
    requires pos <= |input|
    ensures o.pos <= |input|
    ensures o.more ==> pos < o.pos && 0 < keep && o.keep == keep - 1
  {
    if !env.alloc(reqNo, SiteRequest) || !env.alloc(reqNo, SiteMethod) || pos == |input| then
      Round([], pos, keep, false)
    else if !env.alloc(reqNo, SiteLine) then Round([], pos + 1, keep, false)
    else
      var headers := ReadFrom(env, reqNo, input, pos + 1, NewRequest());
      Answer(env, reqNo, headers.0, Chop(input[pos]), headers.1, keep)
  }

  /** The passes of one connection from line `pos` on. */
  datatype Session = Session(out: string, pos: nat, rounds: nat)

  function Serve(env: Env, input: seq<string>, pos: nat, reqNo: nat, keep: nat): (r: Session)
    requires pos <= |input|
    ensures r.pos <= |input|
    decreases |input| - pos
  {
    var o := RoundAt(env, input, pos, reqNo, keep);
    if o.more then
      var rest := Serve(env, input, o.pos, reqNo + 1, o.keep);
      Session(o.out + rest.out, rest.pos, rest.rounds + 1)
    else Session(o.out, o.pos, 1)
  }

  /**
   * The keep-alive budget bounds the passes over one connection: with
   * `keep` requests of budget there are at most `keep + 1` passes, so a
   * connection starting with `HTTP_KEEP_ALIVE_REQ` (5) serves at most six
   * requests, the sixth forced to close.
   */
  lemma {:induction false} RoundsBounded(env: Env, input: seq<string>, pos: nat, reqNo: nat, keep: nat)
    requires pos <= |input|
    ensures 1 <= Serve(env, input, pos, reqNo, keep).rounds <= keep + 1
    decreases |input| - pos
  {
    var o := RoundAt(env, input, pos, reqNo, keep);
    if o.more {
      RoundsBounded(env, input, o.pos, reqNo + 1, o.keep);
    }
  }

  /** With the budget used up, the pass is the last, whatever the client asked for. */
  lemma ExhaustedBudgetCloses(env: Env, input: seq<string>, pos: nat, reqNo: nat)
    requires pos <= |input|
    ensures !RoundAt(env, input, pos, reqNo, 0).more
    ensures Serve(env, input, pos, reqNo, 0).rounds == 1
  {
  }

  /**
   * A request line whose method is not GET, HEAD or POST is answered with
   * 501 and ends the loop; so is one with an empty path or protocol, with
   * 400. Both are answered after the header lines have been read.
   */
  lemma RequestLineErrors(env: Env, reqNo: nat, req: Request, line: string, pos: nat, keep: nat)
    ensures var (m, path, protocol) := RequestLine(line);
            var o := Answer(env, reqNo, req, line, pos, keep);
            && (MethodOf(m).None? ==> !o.more && o.out == ErrorReply(env, req, 501).1)
            && (MethodOf(m).Some? && (|path| == 0 || |protocol| == 0) ==>
                  !o.more && o.out == ErrorReply(env, req.(verb := MethodOf(m).value), 400).1)
            && (MethodOf(m).None? || |path| == 0 || |protocol| == 0 ==>
                  |o.out| >= 9 && Atol(o.out[9..]) == (if MethodOf(m).None? then 501 else 400))
  {
    var (m, path, protocol) := RequestLine(line);
    if MethodOf(m).None? {
      ErrorReplyStatus(env, req, 501);
    } else if |path| == 0 || |protocol| == 0 {
      ErrorReplyStatus(env, req.(verb := MethodOf(m).value), 400);
    }
  }

  /** A pass that reads a request line answers it after reading its header lines. */
  lemma RoundAnswers(env: Env, input: seq<string>, pos: nat, reqNo: nat, keep: nat, req: Request, pos': nat)
    requires pos < |input|
    requires env.alloc(reqNo, SiteRequest) && env.alloc(reqNo, SiteMethod) && env.alloc(reqNo, SiteLine)
    requires req == ReadFrom(env, reqNo, input, pos + 1, NewRequest()).0
    requires pos' == ReadFrom(env, reqNo, input, pos + 1, NewRequest()).1
    ensures RoundAt(env, input, pos, reqNo, keep) == Answer(env, reqNo, req, Chop(input[pos]), pos', keep)
  {
  }

  /**
   * A proof step of `ServeRound`, kept apart so that the solver meets the
   * fresh request and the line after the request line as plain names.
   */
  lemma HeadersAfterRequestLine(env: Env, input: seq<string>, pos: nat, reqNo: nat,
                                next: nat, blank: Request, req: Request, pos': nat)
    requires pos < |input| && next == pos + 1 && blank == NewRequest()
    requires req == ReadFrom(env, reqNo, input, next, blank).0
    requires pos' == ReadFrom(env, reqNo, input, next, blank).1
    ensures req == ReadFrom(env, reqNo, input, pos + 1, NewRequest()).0
    ensures pos' == ReadFrom(env, reqNo, input, pos + 1, NewRequest()).1
  {
  }

  /** A request that is already closing when it is dispatched ends the loop, whatever the answer. */
  lemma CloseEndsLoop(env: Env, reqNo: nat, req: Request, path: string, pos: nat, keep: nat)
    requires req.connection == ModeClose
    ensures !Dispatch(env, reqNo, req, path, pos, keep).more
  {
  }

  /**
   * Once the request is prepared, an answer that is not CGI output starts
   * with a status line, and the loop goes on after it exactly when the
   * status is below 400 (a 200 or a 304) and the request is not closing:
   * a 400 for a path that does not decode, and a 401, 404 or 500 from the
   * file responder (among them the 404 for an unregistered CGI name), each
   * end it.
   */
  lemma StatusDecidesLoop(env: Env, reqNo: nat, req: Request, path: string, pos: nat, keep: nat)
    requires Prepare(env, reqNo, req, path).Some?
    requires !ServesCgi(env, Prepare(env, reqNo, req, path).value)
    ensures var o := Dispatch(env, reqNo, req, path, pos, keep);
            && |o.out| >= 9 && o.out[..9] == "HTTP/1.1 "
            && (o.more <==> Atol(o.out[9..]) < 400 && req.connection != ModeClose)
  {
    var prepared := Prepare(env, reqNo, req, path).value;
    match env.decodePath(prepared.url.value)
    case None =>
      ErrorReplyStatus(env, prepared, 400);
    case Some(decoded) =>
      var r := prepared.(url := Some(decoded));
      FileReplyStatus(env, reqNo, r);
      var p := ProbeFrom(env, reqNo, decoded, 0);
      if env.authFails(r) {
        assert FileReply(env, reqNo, r) == ErrorReply(env, r, 401);
      } else if PrefixCI(decoded, "cgi-bin/") {
        assert FileReply(env, reqNo, r) == ErrorReply(env, r, 404);
      } else if p.NoMemory? {
        assert FileReply(env, reqNo, r) == ErrorReply(env, r, 500);
      } else if p.NotFound? {
        assert FileReply(env, reqNo, r) == ErrorReply(env, r, 404);
      } else {
        assert FileReply(env, reqNo, r) == FoundReply(env, reqNo, r, decoded, p.filename, p.contents);
      }
  }

  /**
   * The output of a registered CGI carries no status the server reads: the
   * loop goes on after it exactly when the request is not closing.
   */
  lemma CgiKeepsConnection(env: Env, reqNo: nat, req: Request, path: string, pos: nat, keep: nat)
    requires Prepare(env, reqNo, req, path).Some?
    requires ServesCgi(env, Prepare(env, reqNo, req, path).value)
    ensures var prepared := Prepare(env, reqNo, req, path).value;
            var o := Dispatch(env, reqNo, req, path, pos, keep);
            && o.out == env.cgi(prepared.(url := env.decodePath(prepared.url.value)))
            && (o.more <==> req.connection != ModeClose)
  {
  }

  /**
   * A `cgi-bin/` URL whose name no CGI is registered under is answered 404,
   * and that ends the loop even on a keep-alive request.
   */
  lemma UnknownCgiEndsLoop(env: Env, reqNo: nat, req: Request, path: string, pos: nat, keep: nat)
    requires Prepare(env, reqNo, req, path).Some?
    requires var prepared := Prepare(env, reqNo, req, path).value;
             var decoded := env.decodePath(prepared.url.value);
             && decoded.Some? && !env.authFails(prepared.(url := decoded))
             && PrefixCI(decoded.value, "cgi-bin/") && CgiName(decoded.value) !in env.cgiNames
    ensures var prepared := Prepare(env, reqNo, req, path).value;
            var o := Dispatch(env, reqNo, req, path, pos, keep);
            && o.out == ErrorReply(env, prepared.(url := env.decodePath(prepared.url.value)), 404).1
            && !o.more
  {
    var prepared := Prepare(env, reqNo, req, path).value;
    var r := prepared.(url := env.decodePath(prepared.url.value));
    assert FileReply(env, reqNo, r) == ErrorReply(env, r, 404);
  }

  /**
   * A failed allocation ends the connection and sends nothing for the
   * request: the request record, the request line buffer or the header
   * line buffer at the start of a pass, or the copy of the query or of the
   * path before the answer.
   */
  lemma OutOfMemorySendsNothing(env: Env, input: seq<string>, pos: nat, reqNo: nat, keep: nat, req: Request, path: string)
    requires pos <= |input|
    ensures !env.alloc(reqNo, SiteRequest) || !env.alloc(reqNo, SiteMethod) || !env.alloc(reqNo, SiteLine) ==>
              RoundAt(env, input, pos, reqNo, keep).out == [] && !RoundAt(env, input, pos, reqNo, keep).more
    ensures (SplitQuery(path).1.Some? && !env.alloc(reqNo, SiteQuery)) || !env.alloc(reqNo, SiteUrl) ==>
              Dispatch(env, reqNo, req, path, pos, keep).out == [] && !Dispatch(env, reqNo, req, path, pos, keep).more
  {
  }

  /** The end of a pass, over the socket. */
  method Finish(s: Socket, env: Env, reqNo: nat, req: Request, path: string, keep: nat) returns (more: bool)
    requires s.Valid()
    modifies s
    ensures s.Valid() && s.pos == old(s.pos)
    ensures var o := Dispatch(env, reqNo, req, path, old(s.pos), keep);
            s.output == old(s.output) + o.out && more == o.more
  {
    var r := req;
    var url := path;
    var cut := Find(path, '?');
    if cut.Some? {
      url := path[..cut.value];
      var query := path[cut.value + 1..];
      if !env.alloc(reqNo, SiteQuery) {
        assert old(s.output) + [] == old(s.output);
        return false;
      }
      r := r.(query := Some(query), table := ParseQuery(Some(query), env.alloc(reqNo, SiteTable)));
    }
    if !env.alloc(reqNo, SiteUrl) {
      assert old(s.output) + [] == old(s.output);
      return false;
    }
    r := r.(url := Some(url));
    var decoded := env.decodePath(url);
    if decoded.None? {
      r := SendError(s, env, r, 400);
    } else {
      r := ProcessFileRequest(s, env, reqNo, r.(url := decoded));
    }
    more := r.connection != ModeClose;
  }

  /** A well-formed request line is dispatched after negotiation and the budget. */
  lemma AnswerDispatches(env: Env, reqNo: nat, req: Request, line: string, pos: nat, keep: nat,
                         m: string, path: string, protocol: string, verb: Method,
                         negotiated: Request, keep': nat, r: Request)
    requires RequestLine(line) == (m, path, protocol) && MethodOf(m) == Some(verb)
    requires |path| > 0 && |protocol| > 0
    requires negotiated == Negotiate(req.(verb := verb), protocol)
    requires keep > 0 ==> keep' == keep - 1 && r == negotiated
    requires keep == 0 ==> keep' == 0 && r == negotiated.(connection := ModeClose)
    ensures Answer(env, reqNo, req, line, pos, keep) == Dispatch(env, reqNo, r, path, pos, keep')
  {
  }

  /** The answer to one request, over the socket. */
  method AnswerRequest(s: Socket, env: Env, reqNo: nat, req: Request, line: string, keep: nat)
    returns (keep': nat, more: bool)
    requires s.Valid()
    modifies s
    ensures s.Valid() && s.pos == old(s.pos)
    ensures var o := Answer(env, reqNo, req, line, old(s.pos), keep);
            s.output == old(s.output) + o.out && keep' == o.keep && more == o.more
  {
    keep' := keep;
    var r := req;
    var (m, path, protocol) := RequestLine(line);
    var verb := MethodOf(m);
    if verb.None? {
      r := SendError(s, env, r, 501);
      return keep', false;
    }
    r := r.(verb := verb.value);
    if |path| == 0 || |protocol| == 0 {
      r := SendError(s, env, r, 400);
      return keep', false;
    }
    r := Negotiate(r, protocol);
    ghost var negotiated := r;
    if keep' > 0 {
      keep' := keep' - 1;
    } else {
      r := r.(connection := ModeClose);
    }
    AnswerDispatches(env, reqNo, req, line, s.pos, keep, m, path, protocol, verb.value, negotiated, keep', r);
    more := Finish(s, env, reqNo, r, path, keep');
  }

  /** One pass of the loop, over the socket. */
  method ServeRound(s: Socket, env: Env, reqNo: nat, keep: nat) returns (keep': nat, more: bool)
    requires s.Valid()
    modifies s
    ensures s.Valid()
    ensures var o := RoundAt(env, s.input, old(s.pos), reqNo, keep);
            s.output == old(s.output) + o.out && s.pos == o.pos && keep' == o.keep && more == o.more
  {
    if !env.alloc(reqNo, SiteRequest) || !env.alloc(reqNo, SiteMethod) {
      assert old(s.output) + [] == old(s.output);
      return keep, false;
    }
    var req := NewRequest();
    var raw := s.ReadLine();
    if raw.None? {
      assert old(s.output) + [] == old(s.output);
      return keep, false;
    }
    var line := Chop(raw.value);
    if !env.alloc(reqNo, SiteLine) {
      assert old(s.output) + [] == old(s.output);
      return keep, false;
    }
    ghost var input, start, next, blank := s.input, old(s.pos), s.pos, req;
    req := ReadHeaders(s, env, reqNo, req);
    HeadersAfterRequestLine(env, input, start, reqNo, next, blank, req, s.pos);
    RoundAnswers(env, input, start, reqNo, keep, req, s.pos);
    keep', more := AnswerRequest(s, env, reqNo, req, line, keep);
  }

  /** `NutHttpProcessRequest`: the passes of one connection, until one ends the loop. */
  method ProcessRequest(s: Socket, env: Env) returns (ghost rounds: nat)
    requires s.Valid()
    modifies s
    ensures s.Valid()
    ensures var r := Serve(env, s.input, old(s.pos), 0, KeepAliveRequests);
            s.output == old(s.output) + r.out && s.pos == r.pos && rounds == r.rounds
    ensures rounds <= KeepAliveRequests + 1
  {
    var keep := KeepAliveRequests;
    var reqNo := 0;
    rounds := 0;
    ghost var total := Serve(env, s.input, s.pos, 0, KeepAliveRequests);
    RoundsBounded(env, s.input, s.pos, 0, KeepAliveRequests);
    while true
      invariant s.Valid()
      invariant var r := Serve(env, s.input, s.pos, reqNo, keep);
                old(s.output) + total.out == s.output + r.out && total.pos == r.pos
                && total.rounds == rounds + r.rounds
      decreases |s.input| - s.pos
    {
      ghost var here := s.output;
      ghost var o := RoundAt(env, s.input, s.pos, reqNo, keep);
      ghost var r := Serve(env, s.input, s.pos, reqNo, keep);
      var more;
      keep, more := ServeRound(s, env, reqNo, keep);
      rounds := rounds + 1;
      reqNo := reqNo + 1;
      if !more {
        assert r == Session(o.out, o.pos, 1);
        break;
      }
      ghost var rest := Serve(env, s.input, s.pos, reqNo, keep);
      assert r == Session(o.out + rest.out, rest.pos, rest.rounds + 1);
      AppendAssoc(here, o.out, rest.out);
    }
  }
}
