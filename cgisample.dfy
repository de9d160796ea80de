/**
 * The request-report CGI of the sample program (`ShowQuery`, registered as
 * `test.cgi`): it prints the method by name, the protocol version as
 * major.minor, the content length, and every request field that is set.
 */
module CgiSample {
  import opened Options
  import opened CString
  import opened Requests

  /** The method as `ShowQuery` names it; a method never set is UNKNOWN. */
  function MethodName(m: Method): (name: string)
    ensures name == "UNKNOWN" <==> m == MethodUnset
  {
    match m
    case MethodGet => "GET"
    case MethodPost => "POST"
    case MethodHead => "HEAD"
    case MethodUnset => "UNKNOWN"
  }

  /**
   * The name printed for a method is the one the request parser takes for
   * it, and the UNKNOWN printed for an unset method is not a method name.
   */
  lemma MethodNameRoundTrip(m: Method)
    ensures m != MethodUnset ==> MethodOf(MethodName(m)) == Some(m)
    ensures m == MethodUnset ==> MethodOf(MethodName(m)).None?
  {
    EqualCIReflexive(MethodName(m));
    if m == MethodUnset {
      assert |"UNKNOWN"| != |"GET"| && |"UNKNOWN"| != |"HEAD"| && |"UNKNOWN"| != |"POST"|;
    } else if m == MethodPost {
      assert Lower("POST"[0]) != Lower("HEAD"[0]) && Lower("POST"[0]) != Lower("GET"[0]);
    } else if m == MethodHead {
      assert |"HEAD"| != |"GET"|;
    }
  }

  /** `%d.%d` of `version / 10` and `version % 10`. */
  function VersionText(version: nat): string
  {
    Decimal(version / 10) + "." + Decimal(version % 10)
  }

  /** A major number, a dot and one minor digit read back with `atol`. */
  lemma VersionPartsReadBack(major: nat, minor: nat)
    requires minor < 10
    ensures var t := Decimal(major) + "." + Decimal(minor);
            && t[|Decimal(major)|] == '.'
            && Atol(t) == major && Atol(t[|Decimal(major)| + 1..]) == minor
            && |t[|Decimal(major)| + 1..]| == 1
  {
    var t := Decimal(major) + "." + Decimal(minor);
    assert t == Decimal(major) + ("." + Decimal(minor));
    AtolDecimalThen(major, "." + Decimal(minor));
    assert t[|Decimal(major)| + 1..] == Decimal(minor);
    AtolDecimal(minor);
  }

  /**
   * The version text reads back as the major number, a dot, and the minor
   * digit: `atol` gives `version / 10` before the dot and `version % 10`
   * after it.
   */
  lemma VersionTextReadsBack(version: nat)
    ensures var t := VersionText(version);
            var k := |Decimal(version / 10)|;
            && k < |t| && t[k] == '.'
            && Atol(t) == version / 10 && Atol(t[k + 1..]) == version % 10
            && |t[k + 1..]| == 1
  {
    VersionPartsReadBack(version / 10, version % 10);
  }

  /** The two versions the request parser sets print as 1.0 and 1.1. */
  lemma KnownVersionTexts()
    ensures VersionText(10) == "1.0" && VersionText(11) == "1.1"
  {
    assert Decimal(1) == "1" && Decimal(0) == "0";
  }

  /** One `name: value<BR>` line of the report. */
  function Line(name: string, value: string): string
  {
    name + ": " + value + "<BR>\r\n"
  }

  /** A line for a field that is set, nothing for one that is NULL. */
  function OptionalLine(name: string, value: Option<string>): string
  {
    if value.Some? then Line(name, value.value) else []
  }

  /** The method line and the version line. */
  function Heading(req: Request): string
  {
    Line("Method", MethodName(req.verb)) + Line("Version", "HTTP/" + VersionText(req.version))
  }

  /**
   * The report `ShowQuery` writes after the page intro, where `dateText`
   * is the `localtime` formatting of the If-Modified-Since time.
   */
  function ShowQuery(req: Request, dateText: int -> string): string
  {
    Heading(req) + (Line("Length", SignedDecimal(req.length)) + OptionalFields(req, dateText))
  }

  /** The lines after the length: each request field that is set, then the connection mode. */
  function OptionalFields(req: Request, dateText: int -> string): string
  {
    OptionalLine("URL", req.url)
    + OptionalLine("Argument", req.query)
    + OptionalLine("Content", req.contentType)
    + OptionalLine("Cookie", req.cookie)
    + OptionalLine("Auth", req.auth)
    + OptionalLine("Agent", req.agent)
    + OptionalLine("Referrer", req.referer)
    + OptionalLine("Host", req.host)
    + (if req.ims != 0 then Line("If-Modified-Since", dateText(req.ims)) else [])
    + Line("Connection", if req.connection == ModeKeepAlive then "Keep-Alive" else "Close")
    + "</BODY></HTML>"
  }

  /** A number printed on a report line reads back with `atol`, whatever comes before and after. */
  lemma NumberLineReadsBack(head: string, name: string, n: int, rest: string)
    ensures (head + (Line(name, SignedDecimal(n)) + rest))[..|head|] == head
    ensures (head + (Line(name, SignedDecimal(n)) + rest))[|head|..|head| + |name| + 2] == name + ": "
    ensures Atol((head + (Line(name, SignedDecimal(n)) + rest))[|head| + |name| + 2..]) == n
  {
    var tail := "<BR>\r\n" + rest;
    var t := head + (Line(name, SignedDecimal(n)) + rest);
    assert t == head + (name + ": ") + (SignedDecimal(n) + tail);
    assert t[|head| + |name| + 2..] == SignedDecimal(n) + tail;
    AtolSignedDecimalThen(n, tail);
  }

  /**
   * The report begins with the method line, whose name the parser maps
   * back to the request's method, and its length line reads back as the
   * request's content length, negative ones included.
   */
  lemma ShowQueryReports(req: Request, dateText: int -> string)
    ensures ShowQuery(req, dateText)[..|Line("Method", MethodName(req.verb))|] == Line("Method", MethodName(req.verb))
    ensures ShowQuery(req, dateText)[|Heading(req)|..|Heading(req)| + 8] == "Length: "
    ensures Atol(ShowQuery(req, dateText)[|Heading(req)| + 8..]) == req.length
  {
    var first := Line("Method", MethodName(req.verb));
    var t := ShowQuery(req, dateText);
    NumberLineReadsBack(Heading(req), "Length", req.length, OptionalFields(req, dateText));
    assert t[..|first|] == Heading(req)[..|first|] == first;
  }
}
