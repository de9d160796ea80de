/**
 * The header loop of `NutHttpProcessRequest`: every line up to the empty
 * one is chopped at its CR/LF and matched, ignoring case, against the
 * header names the server understands, in a fixed order. The fields that
 * `HeaderFieldValue` fills keep their first occurrence; Content-Length and
 * If-Modified-Since are assigned on every line, so the last one wins. A
 * Connection line sets the mode only when the text at offset 12 starts
 * with `close` or `Keep-Alive`, so the last such line wins and any other
 * Connection line is ignored.
 */
module Headers {
  import opened Options
  import opened CString
  import opened UrlCodec
  import opened Requests
  import opened Streams

  /**
   * The C string left in the line buffer: `fgets` stops it at an embedded
   * NUL, and the CR and then the LF are overwritten with terminators.
   */
  function Chop(raw: string): (line: string)
    ensures line <= raw
    ensures NUL !in line && '\r' !in line && '\n' !in line
  {
    var a := CutAt(raw, NUL);
    var b := CutAt(a, '\r');
    var c := CutAt(b, '\n');
    assert forall i :: 0 <= i < |c| ==> c[i] == a[i] && c[i] == b[i];
    c
  }

  /** Writing a terminator over the first `c` of the C string held in `s`. */
  function Terminate(s: string, c: char): (r: string)
    ensures |r| == |s|
  {
    match Find(CutAt(s, NUL), c)
    case None => s
    case Some(i) => s[..i] + [NUL] + s[i + 1..]
  }

  /** The whole line buffer after the CR and the LF have been cut off. */
  function Buffer(raw: string): (b: string)
    ensures |b| == |raw|
  {
    Terminate(Terminate(raw, '\r'), '\n')
  }

  /**
   * The C string at offset `k` of the line buffer. Past the terminator
   * that `fgets` wrote, the buffer still holds bytes of earlier lines:
   * they are `stale`.
   */
  function TextAt(raw: string, k: nat, stale: string): string
  {
    if k <= |raw| then CutAt(Buffer(raw)[k..], NUL) else stale
  }

  /** The branches of the header loop, in the order the source tests them. */
  datatype Kind = KAuth | KLength | KType | KCookie | KAgent | KIms | KReferer | KHost | KConnection | KOther

  /** The header names in the order the source tests them; entry i is branch i. */
  const Names: seq<string> := ["Authorization:", "Content-Length:", "Content-Type:", "Cookie:",
                               "User-Agent:", "If-Modified-Since:", "Referer:", "Host:", "Connection:"]

  function KindAt(i: nat): Kind
  {
    if i == 0 then KAuth else if i == 1 then KLength else if i == 2 then KType
    else if i == 3 then KCookie else if i == 4 then KAgent else if i == 5 then KIms
    else if i == 6 then KReferer else if i == 7 then KHost else if i == 8 then KConnection
    else KOther
  }

  function Index(k: Kind): (i: nat)
    ensures KindAt(i) == k
    ensures k != KOther ==> i < |Names|
  {
    match k
    case KAuth => 0
    case KLength => 1
    case KType => 2
    case KCookie => 3
    case KAgent => 4
    case KIms => 5
    case KReferer => 6
    case KHost => 7
    case KConnection => 8
    case KOther => 9
  }

  function Name(k: Kind): string
  {
    if k == KOther then [] else Names[Index(k)]
  }

  lemma NamesAreNonEmpty()
    ensures forall i :: 0 <= i < |Names| ==> |Names[i]| > 0
  {
  }

  /** The offsets at which the source reads each value: the lengths of the names. */
  lemma NameLengths()
    ensures |Name(KAuth)| == 14 && |Name(KLength)| == 15 && |Name(KType)| == 13
    ensures |Name(KCookie)| == 7 && |Name(KAgent)| == 11 && |Name(KIms)| == 18
    ensures |Name(KReferer)| == 8 && |Name(KHost)| == 5 && |Name(KConnection)| == 11
  {
  }

  /** The index of the first name in `t[i..]` that starts the line, or |t|. */
  function FirstPrefix(t: seq<string>, line: string, i: nat): (r: nat)
    requires i <= |t|
    ensures i <= r <= |t|
    ensures r < |t| ==> PrefixCI(line, t[r])
    decreases |t| - i
  {
    if i == |t| then |t| else if PrefixCI(line, t[i]) then i else FirstPrefix(t, line, i + 1)
  }

  lemma {:induction false} FirstPrefixIs(t: seq<string>, line: string, i: nat, j: nat)
    requires i <= j < |t| && PrefixCI(line, t[j])
    requires forall m :: i <= m < j ==> !PrefixCI(line, t[m])
    ensures FirstPrefix(t, line, i) == j
    decreases j - i
  {
    if i < j {
      FirstPrefixIs(t, line, i + 1, j);
    }
  }

  /** The `strncasecmp` chain: the branch of the first name that starts the line. */
  function Classify(line: string): (k: Kind)
    ensures k != KOther ==> |Name(k)| <= |line| && PrefixCI(line, Name(k))
    ensures k != KOther ==> |line| > 0
  {
    var i := FirstPrefix(Names, line, 0);
    assert i < |Names| ==> |Names[i]| > 0 by {
      NamesAreNonEmpty();
    }
    assert KindAt(i) != KOther ==> Index(KindAt(i)) == i;
    KindAt(i)
  }

  /** Two names that differ, ignoring case, at `i` cannot both start a line. */
  lemma Clash(line: string, a: string, b: string, i: nat)
    requires PrefixCI(line, a)
    requires i < |a| && i < |b| && Lower(a[i]) != Lower(b[i])
    ensures !PrefixCI(line, b)
  {
    assert line[..|a|][i] == line[i];
    if |b| <= |line| {
      assert line[..|b|][i] == line[i];
    }
  }

  /** Where name `j` and each earlier name first differ, ignoring case. */
  function ClashAt(j: nat, m: nat): (c: nat)
    requires m < j < |Names|
    ensures c < |Names[j]| && c < |Names[m]| && Lower(Names[j][c]) != Lower(Names[m][c])
  {
    if (j == 2 && m == 1) then 8
    else if (j == 3 && (m == 1 || m == 2)) || (j == 8 && m == 3) then 2
    else if j == 8 && (m == 1 || m == 2) then 3
    else 0
  }

  /**
   * Header names are matched ignoring case, and no name shadows another:
   * a line that starts with a name, in any capitalisation, takes that
   * name's branch.
   */
  lemma ClassifyByName(line: string, k: Kind)
    requires k != KOther && PrefixCI(line, Name(k))
    ensures Classify(line) == k
  {
    var j := Index(k);
    forall m | 0 <= m < j
      ensures !PrefixCI(line, Names[m])
    {
      Clash(line, Names[j], Names[m], ClashAt(j, m));
    }
    FirstPrefixIs(Names, line, 0, j);
  }

  /** The branch of each field `HeaderFieldValue` fills. */
  function KindOf(f: Field): (k: Kind)
  {
    match f
    case Authorization => KAuth
    case ContentType => KType
    case Cookie => KCookie
    case UserAgent => KAgent
    case Referer => KReferer
    case Host => KHost
  }

  function Value(req: Request, f: Field): Option<string>
  {
    match f
    case Authorization => req.auth
    case ContentType => req.contentType
    case Cookie => req.cookie
    case UserAgent => req.agent
    case Referer => req.referer
    case Host => req.host
  }

  /** Setting a string field changes that field and none of the scalar ones. */
  function WithValue(req: Request, f: Field, v: Option<string>): (r: Request)
    ensures Value(r, f) == v
    ensures r.length == req.length && r.ims == req.ims && r.connection == req.connection
  {
    match f
    case Authorization => req.(auth := v)
    case ContentType => req.(contentType := v)
    case Cookie => req.(cookie := v)
    case UserAgent => req.(agent := v)
    case Referer => req.(referer := v)
    case Host => req.(host := v)
  }

  /**
   * `HeaderFieldValue`: the pair (field, out of memory). A field already
   * set is never overridden; otherwise it becomes a copy of `str` without
   * its leading blanks, unless the copy cannot be allocated.
   */
  function HeaderFieldValue(current: Option<string>, str: string, allocOk: bool): (r: (Option<string>, bool))
    ensures r.1 <==> current.None? && !allocOk
    ensures current.Some? ==> r.0 == current
    ensures current.None? && !allocOk ==> r.0.None?
    ensures current.None? && allocOk ==>
              r.0.Some? && |r.0.value| <= |str| && r.0.value == str[|str| - |r.0.value|..] &&
              (|r.0.value| > 0 ==> !IsBlank(r.0.value[0])) &&
              forall i :: 0 <= i < |str| - |r.0.value| ==> IsBlank(str[i])
  {
    if current.Some? then (current, false)
    else if !allocOk then (None, true)
    else (Some(SkipBlanks(str)), false)
  }

  /** What a `Connection:` line does to the mode: only the value at offset 12 is looked at. */
  function ConnectionValue(mode: Mode, t: string): Mode
  {
    if PrefixCI(t, "close") then ModeClose
    else if PrefixCI(t, "Keep-Alive") then ModeKeepAlive
    else mode
  }

  /**
   * The body of the header loop for one non-empty line; None when
   * `HeaderFieldValue` runs out of memory, which ends the loop.
   */
  function Capture(env: Env, reqNo: nat, req: Request, raw: string): Option<Request>
  {
    var line := Chop(raw);
    var k := Classify(line);
    var str := line[|Name(k)|..];
    match k
    case KLength => Some(req.(length := Atol(str)))
    case KIms => Some(req.(ims := env.timeParse(str)))
    case KConnection => Some(req.(connection := ConnectionValue(req.connection, TextAt(raw, 12, env.staleTail))))
    case KOther => Some(req)
    case KAuth => Store(env, reqNo, req, Authorization, str)
    case KType => Store(env, reqNo, req, ContentType, str)
    case KCookie => Store(env, reqNo, req, Cookie, str)
    case KAgent => Store(env, reqNo, req, UserAgent, str)
    case KReferer => Store(env, reqNo, req, Referer, str)
    case KHost => Store(env, reqNo, req, Host, str)
  }

  function Store(env: Env, reqNo: nat, req: Request, f: Field, str: string): (r: Option<Request>)
    ensures r.Some? ==> r.value.length == req.length && r.value.ims == req.ims
    ensures r.Some? ==> r.value.connection == req.connection
  {
    var (v, outOfMemory) := HeaderFieldValue(Value(req, f), str, env.alloc(reqNo, SiteField(f)));
    if outOfMemory then None else Some(WithValue(req, f, v))
  }

  /**
   * The header loop from line `pos` on: the request it leaves and the
   * number of lines read. It stops at the end of the input, after the
   * empty line, or after a line whose value cannot be allocated.
   */
  function ReadFrom(env: Env, reqNo: nat, input: seq<string>, pos: nat, req: Request): (r: (Request, nat))
    requires pos <= |input|
    ensures pos <= r.1 <= |input|
    decreases |input| - pos
  {
    if pos == |input| then (req, pos)
    else if Chop(input[pos]) == [] then (req, pos + 1)
    else
      match Capture(env, reqNo, req, input[pos])
      case None => (req, pos + 1)
      case Some(next) => ReadFrom(env, reqNo, input, pos + 1, next)
  }

  /** The header loop over the socket, line by line. */
  method ReadHeaders(s: Socket, env: Env, reqNo: nat, req: Request) returns (req': Request)
    requires s.Valid()
    modifies s
    ensures s.Valid() && s.output == old(s.output)
    ensures req' == ReadFrom(env, reqNo, s.input, old(s.pos), req).0
    ensures s.pos == ReadFrom(env, reqNo, s.input, old(s.pos), req).1
  {
    req' := req;
    while true
      invariant s.Valid() && s.output == old(s.output)
      invariant ReadFrom(env, reqNo, s.input, s.pos, req') == ReadFrom(env, reqNo, s.input, old(s.pos), req)
      decreases |s.input| - s.pos
    {
      var raw := s.ReadLine();
      if raw.None? {
        break;
      }
      if Chop(raw.value) == [] {
        break;
      }
      var next := Capture(env, reqNo, req', raw.value);
      if next.None? {
        break;
      }
      req' := next.value;
    }
  }

  lemma StoreKeeps(env: Env, reqNo: nat, req: Request, f: Field, str: string, g: Field)
    requires Value(req, g).Some? && Store(env, reqNo, req, f, str).Some?
    ensures Value(Store(env, reqNo, req, f, str).value, g) == Value(req, g)
  {
  }

  /** A stored field is left alone by every later line. */
  lemma CaptureKeeps(env: Env, reqNo: nat, req: Request, raw: string, f: Field)
    requires Value(req, f).Some? && Capture(env, reqNo, req, raw).Some?
    ensures Value(Capture(env, reqNo, req, raw).value, f) == Value(req, f)
  {
    var line := Chop(raw);
    var k := Classify(line);
    var str := line[|Name(k)|..];
    match k
    case KLength =>
      assert Capture(env, reqNo, req, raw) == Some(req.(length := Atol(str)));
    case KIms =>
      assert Capture(env, reqNo, req, raw) == Some(req.(ims := env.timeParse(str)));
    case KConnection =>
      var c := ConnectionValue(req.connection, TextAt(raw, 12, env.staleTail));
      assert Capture(env, reqNo, req, raw) == Some(req.(connection := c));
    case KOther =>
    case KAuth => StoreKeeps(env, reqNo, req, Authorization, str, f);
    case KType => StoreKeeps(env, reqNo, req, ContentType, str, f);
    case KCookie => StoreKeeps(env, reqNo, req, Cookie, str, f);
    case KAgent => StoreKeeps(env, reqNo, req, UserAgent, str, f);
    case KReferer => StoreKeeps(env, reqNo, req, Referer, str, f);
    case KHost => StoreKeeps(env, reqNo, req, Host, str, f);
  }

  /** A line of a field not yet set stores its value. */
  lemma CaptureSets(env: Env, reqNo: nat, req: Request, raw: string, f: Field)
    requires Classify(Chop(raw)) == KindOf(f)
    requires Value(req, f).None? && env.alloc(reqNo, SiteField(f))
    ensures Capture(env, reqNo, req, raw).Some?
    ensures Value(Capture(env, reqNo, req, raw).value, f) == Some(SkipBlanks(Chop(raw)[|Name(KindOf(f))|..]))
  {
    var str := Chop(raw)[|Name(KindOf(f))|..];
    assert Capture(env, reqNo, req, raw) == Store(env, reqNo, req, f, str);
  }

  /** The value a Content-Length or If-Modified-Since line assigns. */
  function ScalarValue(env: Env, k: Kind, str: string): int
    requires k == KLength || k == KIms
  {
    if k == KLength then Atol(str) else env.timeParse(str)
  }

  /** Content-Length and If-Modified-Since change only on a line of their own name... */
  lemma CaptureOther(env: Env, reqNo: nat, req: Request, raw: string, k: Kind)
    requires k == KLength || k == KIms
    requires Capture(env, reqNo, req, raw).Some? && Classify(Chop(raw)) != k
    ensures Scalar(Capture(env, reqNo, req, raw).value, k) == Scalar(req, k)
  {
    var line := Chop(raw);
    var str := line[|Name(Classify(line))|..];
    var r := Capture(env, reqNo, req, raw).value;
    match Classify(line)
    case KLength =>
      assert r.ims == req.ims;
    case KIms =>
      assert r.length == req.length;
    case KConnection =>
      assert r.length == req.length && r.ims == req.ims;
    case _ =>
  }

  /** ...and such a line assigns its value, whatever was there before. */
  lemma CaptureOwn(env: Env, reqNo: nat, req: Request, raw: string, k: Kind)
    requires k == KLength || k == KIms
    requires Classify(Chop(raw)) == k
    ensures Capture(env, reqNo, req, raw).Some?
    ensures Scalar(Capture(env, reqNo, req, raw).value, k) == ScalarValue(env, k, Chop(raw)[|Name(k)|..])
  {
    var str := Chop(raw)[|Name(k)|..];
    if k == KLength {
      assert Capture(env, reqNo, req, raw) == Some(req.(length := Atol(str)));
    } else {
      assert Capture(env, reqNo, req, raw) == Some(req.(ims := env.timeParse(str)));
    }
  }

  /** Once set, a field keeps its value to the end of the header. */
  lemma {:induction false} FirstValueStays(env: Env, reqNo: nat, input: seq<string>, pos: nat, req: Request, f: Field)
    requires pos <= |input| && Value(req, f).Some?
    ensures Value(ReadFrom(env, reqNo, input, pos, req).0, f) == Value(req, f)
    decreases |input| - pos
  {
    if pos < |input| && Chop(input[pos]) != [] {
      var next := Capture(env, reqNo, req, input[pos]);
      if next.Some? {
        CaptureKeeps(env, reqNo, req, input[pos], f);
        FirstValueStays(env, reqNo, input, pos + 1, next.value, f);
      }
    }
  }

  /** A captured line hands the updated record on to the next line. */
  lemma ReadFromStep(env: Env, reqNo: nat, input: seq<string>, pos: nat, req: Request)
    requires pos < |input| && Chop(input[pos]) != [] && Capture(env, reqNo, req, input[pos]).Some?
    ensures ReadFrom(env, reqNo, input, pos, req) == ReadFrom(env, reqNo, input, pos + 1, Capture(env, reqNo, req, input[pos]).value)
  {
  }

  /**
   * The first line carrying a field sets it, blanks after the colon
   * stripped, and no later line of the same name changes it.
   */
  lemma FirstValueCaptured(env: Env, reqNo: nat, input: seq<string>, pos: nat, req: Request, f: Field)
    requires pos < |input| && Classify(Chop(input[pos])) == KindOf(f)
    requires Value(req, f).None? && env.alloc(reqNo, SiteField(f))
    ensures Value(ReadFrom(env, reqNo, input, pos, req).0, f) ==
            Some(SkipBlanks(Chop(input[pos])[|Name(KindOf(f))|..]))
  {
    CaptureSets(env, reqNo, req, input[pos], f);
    var next := Capture(env, reqNo, req, input[pos]).value;
    ReadFromStep(env, reqNo, input, pos, req);
    FirstValueStays(env, reqNo, input, pos + 1, next, f);
  }

  /** The fields that are assigned on every occurrence. */
  function Scalar(req: Request, k: Kind): int
    requires k == KLength || k == KIms
  {
    if k == KLength then req.length else req.ims
  }

  /**
   * Line `end` closes the header the loop reads: it is the empty line, or
   * the input ends there.
   */
  predicate EndsHeader(input: seq<string>, end: nat)
    requires end <= |input|
  {
    end == |input| || Chop(input[end]) == []
  }

  /**
   * Lines of other names leave Content-Length and If-Modified-Since alone:
   * when no line of the name comes before the end of the header, the value
   * is the one the loop started with.
   */
  lemma {:induction false} ScalarUnchanged(env: Env, reqNo: nat, input: seq<string>, pos: nat, end: nat, req: Request, k: Kind)
    requires k == KLength || k == KIms
    requires pos <= end <= |input| && EndsHeader(input, end)
    requires forall j :: pos <= j < end ==> Classify(Chop(input[j])) != k
    ensures Scalar(ReadFrom(env, reqNo, input, pos, req).0, k) == Scalar(req, k)
    decreases |input| - pos
  {
    if pos < |input| && Chop(input[pos]) != [] {
      assert pos < end;
      var next := Capture(env, reqNo, req, input[pos]);
      if next.Some? {
        CaptureOther(env, reqNo, req, input[pos], k);
        ScalarUnchanged(env, reqNo, input, pos + 1, end, next.value, k);
      }
    }
  }

  /**
   * The last Content-Length line of a header wins: whatever earlier lines
   * said, the length is the one of the last line of that name before the
   * empty line (or the end of the input) at `end`.
   */
  lemma LastLengthWins(env: Env, reqNo: nat, input: seq<string>, pos: nat, end: nat, req: Request)
    requires pos < end <= |input| && EndsHeader(input, end)
    requires Classify(Chop(input[pos])) == KLength
    requires forall j :: pos < j < end ==> Classify(Chop(input[j])) != KLength
    ensures |Chop(input[pos])| >= 15
    ensures ReadFrom(env, reqNo, input, pos, req).0.length == Atol(Chop(input[pos])[15..])
  {
    var raw := input[pos];
    NameLengths();
    CaptureOwn(env, reqNo, req, raw, KLength);
    var next := Capture(env, reqNo, req, raw).value;
    ScalarUnchanged(env, reqNo, input, pos + 1, end, next, KLength);
  }

  /**
   * Likewise the last If-Modified-Since line of a header gives the time the
   * conditional GET compares with.
   */
  lemma LastImsWins(env: Env, reqNo: nat, input: seq<string>, pos: nat, end: nat, req: Request)
    requires pos < end <= |input| && EndsHeader(input, end)
    requires Classify(Chop(input[pos])) == KIms
    requires forall j :: pos < j < end ==> Classify(Chop(input[j])) != KIms
    ensures |Chop(input[pos])| >= 18
    ensures ReadFrom(env, reqNo, input, pos, req).0.ims == env.timeParse(Chop(input[pos])[18..])
  {
    var raw := input[pos];
    NameLengths();
    CaptureOwn(env, reqNo, req, raw, KIms);
    var next := Capture(env, reqNo, req, raw).value;
    ScalarUnchanged(env, reqNo, input, pos + 1, end, next, KIms);
  }

  /**
   * A `Connection:` line that sets the mode: its text at offset 12 starts
   * with `close` or `Keep-Alive`, ignoring case.
   */
  predicate SetsMode(env: Env, raw: string)
  {
    && Classify(Chop(raw)) == KConnection
    && (PrefixCI(TextAt(raw, 12, env.staleTail), "close") || PrefixCI(TextAt(raw, 12, env.staleTail), "Keep-Alive"))
  }

  /** A line that does not set the mode leaves it alone. */
  lemma CaptureKeepsMode(env: Env, reqNo: nat, req: Request, raw: string)
    requires Capture(env, reqNo, req, raw).Some? && !SetsMode(env, raw)
    ensures Capture(env, reqNo, req, raw).value.connection == req.connection
  {
    var line := Chop(raw);
    var str := line[|Name(Classify(line))|..];
    match Classify(line)
    case KConnection =>
    case KLength =>
    case KIms =>
    case KOther =>
    case KAuth =>
    case KType =>
    case KCookie =>
    case KAgent =>
    case KReferer =>
    case KHost =>
  }

  /**
   * Without a line that sets it before the end of the header, the mode the
   * header loop leaves is the one it started with.
   */
  lemma {:induction false} ModeUnchanged(env: Env, reqNo: nat, input: seq<string>, pos: nat, end: nat, req: Request)
    requires pos <= end <= |input| && EndsHeader(input, end)
    requires forall j :: pos <= j < end ==> !SetsMode(env, input[j])
    ensures ReadFrom(env, reqNo, input, pos, req).0.connection == req.connection
    decreases |input| - pos
  {
    if pos < |input| && Chop(input[pos]) != [] {
      assert pos < end;
      var next := Capture(env, reqNo, req, input[pos]);
      if next.Some? {
        CaptureKeepsMode(env, reqNo, req, input[pos]);
        ModeUnchanged(env, reqNo, input, pos + 1, end, next.value);
      }
    }
  }

  /** A Connection line assigns the mode its value at offset 12 selects. */
  lemma CaptureMode(env: Env, reqNo: nat, req: Request, raw: string)
    requires Classify(Chop(raw)) == KConnection
    ensures Capture(env, reqNo, req, raw) == Some(req.(connection := ConnectionValue(req.connection, TextAt(raw, 12, env.staleTail))))
  {
  }

  /**
   * The last Connection line of a header that sets the mode decides it:
   * close when its value starts with `close`, keep-alive otherwise,
   * whatever earlier lines said, when no line before the empty line (or
   * the end of the input) at `end` sets it again.
   */
  lemma LastConnectionWins(env: Env, reqNo: nat, input: seq<string>, pos: nat, end: nat, req: Request)
    requires pos < end <= |input| && EndsHeader(input, end)
    requires SetsMode(env, input[pos])
    requires forall j :: pos < j < end ==> !SetsMode(env, input[j])
    ensures ReadFrom(env, reqNo, input, pos, req).0.connection ==
            (if PrefixCI(TextAt(input[pos], 12, env.staleTail), "close") then ModeClose else ModeKeepAlive)
  {
    var raw := input[pos];
    CaptureMode(env, reqNo, req, raw);
    var next := Capture(env, reqNo, req, raw).value;
    ReadFromStep(env, reqNo, input, pos, req);
    ModeUnchanged(env, reqNo, input, pos + 1, end, next);
  }

  /** A `Connection:` line with a value free of line ends is chopped to its text and classified as such. */
  lemma ConnectionChop(v: string)
    requires NUL !in v && '\r' !in v && '\n' !in v
    ensures Chop("Connection:" + v + "\r\n") == "Connection:" + v
    ensures Classify(Chop("Connection:" + v + "\r\n")) == KConnection
  {
    var text := "Connection:" + v;
    var raw := text + "\r\n";
    assert NUL !in raw && '\r' !in text && '\n' !in text by {
      assert forall k :: 0 <= k < |text| ==> text[k] != NUL && text[k] != '\r' && text[k] != '\n';
    }
    assert CutAt(raw, NUL) == raw;
    assert raw[|text|] == '\r';
    assert CutAt(raw, '\r') == text;
    assert text[..11] == "Connection:";
    EqualCIReflexive("Connection:");
    ClassifyByName(text, KConnection);
  }

  /** The line buffer of a line without line ends once its CR is overwritten; there is no LF left to cut. */
  lemma LineBuffer(text: string)
    requires NUL !in text && '\r' !in text && '\n' !in text
    ensures Buffer(text + "\r\n") == text + [NUL] + "\n"
  {
    var raw := text + "\r\n";
    assert NUL !in raw;
    var cut := text + [NUL] + "\n";
    assert CutAt(raw, NUL) == raw;
    assert raw[|text|] == '\r';
    assert Terminate(raw, '\r') == cut;
    CutBeforeNul(text, "\n");
  }

  /** The text at offset `k` of a line without line ends is the rest of the line from `k`. */
  lemma TextAtOffset(text: string, k: nat, stale: string)
    requires k <= |text| && NUL !in text && '\r' !in text && '\n' !in text
    ensures TextAt(text + "\r\n", k, stale) == text[k..]
  {
    LineBuffer(text);
    assert (text + [NUL] + "\n")[k..] == text[k..] + [NUL] + "\n";
    assert NUL !in text[k..] by {
      assert forall j :: 0 <= j < |text| - k ==> text[k..][j] == text[k + j];
    }
    CutBeforeNul(text[k..], "\n");
  }

  /** Cutting a text followed by a NUL at its first NUL gives the text. */
  lemma CutBeforeNul(t: string, rest: string)
    requires NUL !in t
    ensures CutAt(t + [NUL] + rest, NUL) == t
  {
    var r := CutAt(t + [NUL] + rest, NUL);
    var s := t + [NUL] + rest;
    assert forall k :: 0 <= k < |t| ==> s[k] == t[k] && s[k] != NUL;
    assert s[|t|] == NUL && s[..|t|] == t;
  }

  /** What a `Connection:` line with value `v` does to the request. */
  lemma ConnectionLine(env: Env, reqNo: nat, req: Request, v: string)
    requires |v| > 0 && NUL !in v && '\r' !in v && '\n' !in v
    ensures Capture(env, reqNo, req, "Connection:" + v + "\r\n") ==
            Some(req.(connection := ConnectionValue(req.connection, v[1..])))
  {
    var text := "Connection:" + v;
    var raw := text + "\r\n";
    ConnectionChop(v);
    assert NUL !in text && '\r' !in text && '\n' !in text by {
      assert forall k :: 0 <= k < |text| ==> text[k] != NUL && text[k] != '\r' && text[k] != '\n';
    }
    TextAtOffset(text, 12, env.staleTail);
    assert text[12..] == v[1..];
    CaptureMode(env, reqNo, req, raw);
  }

  /**
   * Only offset 12 is looked at, one past the colon, whatever follows it.
   * By `ConnectionLine`, `Connection:close` is read as `lose` and
   * `Connection:  close` as ` close`, so neither changes the mode, while
   * `Connection: close` closes.
   */
  lemma ConnectionOffset(mode: Mode)
    ensures ConnectionValue(mode, "close"[1..]) == mode
    ensures ConnectionValue(mode, "  close"[1..]) == mode
    ensures ConnectionValue(mode, " close"[1..]) == ModeClose
  {
    assert "close"[1..] == "lose";
    assert !PrefixCI("lose", "close") && !PrefixCI("lose", "Keep-Alive");
    assert "  close"[1..] == " close";
    assert Lower(" close"[0]) != Lower("close"[0]);
    assert !PrefixCI(" close", "close") && !PrefixCI(" close", "Keep-Alive");
    assert " close"[1..] == "close";
    EqualCIReflexive("close");
  }
}
