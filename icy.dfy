/**
 * The SHOUTcast (ICY) client side of the radio player: the request sent to
 * the station, the scan of its response header for `icy-metaint`, the
 * reader of one metadata block, and the audio loop that stops every read
 * at the next metadata block. A stream is the bytes the station sends and,
 * for each successive `fread`, how many bytes are ready for it.
 */
module Icy {
  import opened Options
  import opened CString
  import opened Streams
  import opened Requests

  newtype byte = x: int | 0 <= x < 256

  /** `RADIO_URL`. */
  const RadioUrl: string := "/SLAMFM_MP3_HQ"
  /** The header line that gives the audio bytes between two metadata blocks. */
  const MetaintTag: string := "icy-metaint:"
  /** The largest metadata length byte that is accepted. */
  const MaxBlocks: nat := 32
  /** A metadata length byte counts blocks of this many bytes. */
  const BlockSize: nat := 16
  /** `u_long` is 32 bits wide on the target: a value stored into one is taken modulo this. */
  const ULongRange: nat := 0x1_0000_0000

  function Min(a: nat, b: nat): (m: nat)
    ensures m <= a && m <= b && (m == a || m == b)
  {
    if a <= b then a else b
  }

  /** How far a stream has been read: bytes consumed and `fread` calls made. */
  datatype Cursor = Cursor(pos: nat, calls: nat)

  /**
   * What the next `fread(buf, 1, want, stream)` returns: no more than asked
   * for, than is ready for this call, or than is left; once the listed
   * calls are used up the station has closed the connection and 0 comes back.
   */
  function Got(data: seq<byte>, avail: seq<nat>, c: Cursor, want: nat): (got: nat)
    requires c.pos <= |data|
    ensures got <= want && c.pos + got <= |data|
    ensures got > 0 <==> want > 0 && c.calls < |avail| && avail[c.calls] > 0 && c.pos < |data|
  {
    if c.calls < |avail| then Min(Min(want, avail[c.calls]), |data| - c.pos) else 0
  }

  function After(data: seq<byte>, avail: seq<nat>, c: Cursor, want: nat): Cursor
    requires c.pos <= |data|
  {
    Cursor(c.pos + Got(data, avail, c, want), c.calls + 1)
  }

  /** The station connection as `fread` sees it. */
  class Stream {
    const data: seq<byte>
    /** How many bytes are ready for each successive `fread`. */
    const avail: seq<nat>
    var at: Cursor

    ghost predicate Valid()
      reads this
    {
      at.pos <= |data|
    }

    constructor(data: seq<byte>, avail: seq<nat>)
      ensures Valid() && this.data == data && this.avail == avail && at == Cursor(0, 0)
    {
      this.data := data;
      this.avail := avail;
      at := Cursor(0, 0);
    }

    /** `fread(buf, 1, want, stream)`: the bytes land at `data[old(at.pos)..at.pos]`. */
    method Read(want: nat) returns (got: nat)
      requires Valid()
      modifies this
      ensures Valid()
      ensures got == Got(data, avail, old(at), want) && at == After(data, avail, old(at), want)
    {
      got := Got(data, avail, at, want);
      at := Cursor(at.pos + got, at.calls + 1);
    }
  }

  // ---------------------------------------------------------------------
  // The request and the response header (`ConnectStation`)
  // ---------------------------------------------------------------------

  /** The request line: `GET RADIO_URL HTTP/1.0`. */
  function StationLine(): string
  {
    "GET" + " " + RadioUrl + " " + "HTTP/1.0"
  }

  /** The HTTP/1.0 request `ConnectStation` sends, asking for metadata and a closed connection. */
  function StationRequest(host: string): string
  {
    StationLine() + StationFields(host)
  }

  /** The end of the request line and the header fields after it. */
  function StationFields(host: string): string
  {
    "\r\n"
    + "Host: " + host + "\r\n"
    + "User-Agent: Ethernut\r\n"
    + "Accept: */*\r\n"
    + "Icy-MetaData: 1\r\n"
    + "Connection: close\r\n"
    + "\r\n"
  }

  /**
   * The request line the player sends is one the web server of the same
   * system reads as a GET of `RADIO_URL` over HTTP/1.0, so version 10 and
   * no keep-alive.
   */
  lemma StationRequestParses(host: string, req: Request)
    requires req.connection != ModeKeepAlive
    ensures StationRequest(host)[..|StationLine()|] == StationLine()
    ensures RequestLine(StationLine()) == ("GET", RadioUrl, "HTTP/1.0")
    ensures MethodOf("GET") == Some(MethodGet)
    ensures Negotiate(req, "HTTP/1.0").version == 10 && Negotiate(req, "HTTP/1.0").connection == ModeClose
  {
    assert NoBlanks("GET") && NoBlanks(RadioUrl) && NoBlanks("HTTP/1.0");
    RequestLineJoin("GET", RadioUrl, "HTTP/1.0");
    EqualCIReflexive("GET");
    EqualCIReflexive("HTTP/1.0");
  }

  /**
   * A header line as the loop sees it: the C string up to its NUL, cut at
   * its first CR; a line without a CR (one longer than the buffer) gives
   * nothing and is skipped.
   */
  function CutCR(raw: string): (r: Option<string>)
    ensures r.Some? ==> '\r' !in r.value && r.value <= raw
  {
    var text := CutAt(raw, '\0');
    if '\r' in text then Some(CutAt(text, '\r')) else None
  }

  /** What the header loop does with one line. */
  datatype LineKind = Skipped | Empty | Metaint(value: nat) | Other

  /**
   * A line without a CR is skipped, an empty one ends the header, and one
   * starting `icy-metaint:` (`strncmp`, so case and all) sets the interval
   * to `atol` of the rest, stored into a `u_long`: a negative value wraps
   * around modulo 2^32.
   */
  function Classify(raw: string): LineKind
  {
    match CutCR(raw)
    case None => Skipped
    case Some(line) =>
      if line == [] then Empty
      else if Prefix(line, MetaintTag) then Metaint(Atol(line[|MetaintTag|..]) % ULongRange)
      else Other
  }

  /** The interval after a line of this kind. */
  function Carry(kind: LineKind, metaint: nat): nat
  {
    if kind.Metaint? then kind.value else metaint
  }

  /** Where the header scan stops reading, and the interval it leaves. */
  datatype Scan = Scan(pos: nat, metaint: nat)

  /** The kind of every line of the response. */
  function Kinds(lines: seq<string>): (kinds: seq<LineKind>)
    ensures |kinds| == |lines|
  {
    if |lines| == 0 then [] else [Classify(lines[0])] + Kinds(lines[1..])
  }

  lemma {:induction false} KindAt(lines: seq<string>, k: nat)
    requires k < |lines|
    ensures Kinds(lines)[k] == Classify(lines[k])
  {
    if k > 0 {
      KindAt(lines[1..], k - 1);
    }
  }

  /**
   * The header loop of `ConnectStation` from line `pos` on, over the kinds
   * of the lines: it stops after the first empty line, or when the lines
   * run out. Until then no line ends the header, and the interval changes
   * only on an `icy-metaint:` line.
   */
  function ScanHeader(kinds: seq<LineKind>, pos: nat, metaint: nat): (r: Scan)
    requires pos <= |kinds|
    ensures pos <= r.pos <= |kinds|
    ensures r.pos == |kinds| || (pos < r.pos && kinds[r.pos - 1].Empty?)
    ensures forall k :: pos <= k && k + 1 < r.pos ==> !kinds[k].Empty?
    ensures (forall k :: pos <= k < r.pos ==> !kinds[k].Metaint?) ==> r.metaint == metaint
    decreases |kinds| - pos
  {
    if pos == |kinds| then Scan(pos, metaint)
    else
      match kinds[pos]
      case Empty => Scan(pos + 1, metaint)
      case Metaint(value) => ScanHeader(kinds, pos + 1, value)
      case _ => ScanHeader(kinds, pos + 1, metaint)
  }

  /** One line of the scan: the empty line ends it, any other goes on with the interval it leaves. */
  lemma ScanStep(kinds: seq<LineKind>, pos: nat, metaint: nat)
    requires pos < |kinds|
    ensures kinds[pos].Empty? ==> ScanHeader(kinds, pos, metaint) == Scan(pos + 1, metaint)
    ensures !kinds[pos].Empty? ==>
              ScanHeader(kinds, pos, metaint) == ScanHeader(kinds, pos + 1, Carry(kinds[pos], metaint))
  {
  }

  /**
   * When the header sets the interval, the last `icy-metaint:` line
   * before the empty line wins.
   */
  lemma {:induction false} LastMetaintWins(kinds: seq<LineKind>, pos: nat, metaint: nat, k: nat)
    requires pos <= |kinds| && pos <= k < ScanHeader(kinds, pos, metaint).pos
    requires kinds[k].Metaint?
    requires forall j :: k < j < ScanHeader(kinds, pos, metaint).pos ==> !kinds[j].Metaint?
    ensures ScanHeader(kinds, pos, metaint).metaint == kinds[k].value
    decreases |kinds| - pos
  {
    if pos < k {
      var next := if kinds[pos].Metaint? then kinds[pos].value else metaint;
      assert ScanHeader(kinds, pos, metaint) == ScanHeader(kinds, pos + 1, next);
      LastMetaintWins(kinds, pos + 1, next, k);
    }
  }

  /**
   * The line a station sends to announce its interval, and the empty line,
   * are classified as such; an interval of 2^32 or more wraps around.
   */
  lemma AnnouncementKinds(interval: nat)
    ensures Classify(MetaintTag + Decimal(interval) + "\r\n") == Metaint(interval % ULongRange)
    ensures Classify("\r\n") == Empty
  {
    var text := MetaintTag + Decimal(interval);
    var tagged := text + "\r\n";
    assert '\0' !in tagged by {
      assert forall k :: 0 <= k < |Decimal(interval)| ==> IsDigit(Decimal(interval)[k]);
    }
    assert CutAt(tagged, '\0') == tagged;
    assert '\r' !in text by {
      assert forall k :: 0 <= k < |Decimal(interval)| ==> IsDigit(Decimal(interval)[k]);
    }
    assert tagged[|text|] == '\r';
    assert CutAt(tagged, '\r') == text;
    assert text[|MetaintTag|..] == Decimal(interval);
    AtolDecimal(interval);
    assert CutAt("\r\n", '\0') == "\r\n";
  }

  /** The header scan reads back an interval the station announces after its status line. */
  lemma AnnouncedMetaint(status: string, interval: nat, rest: seq<string>)
    requires Classify(status).Other?
    ensures ScanHeader(Kinds([status, MetaintTag + Decimal(interval) + "\r\n", "\r\n"] + rest), 0, 0)
            == Scan(3, interval % ULongRange)
  {
    var lines := [status, MetaintTag + Decimal(interval) + "\r\n", "\r\n"] + rest;
    var kinds := Kinds(lines);
    AnnouncementKinds(interval);
    KindAt(lines, 0);
    KindAt(lines, 1);
    KindAt(lines, 2);
    ScanStep(kinds, 0, 0);
    ScanStep(kinds, 1, 0);
    ScanStep(kinds, 2, interval % ULongRange);
  }

  /** A tagged line whose value has no NUL or CR is read as `atol` of that value, stored into a `u_long`. */
  lemma TaggedLine(value: string)
    requires '\0' !in value && '\r' !in value
    ensures Classify(MetaintTag + value + "\r\n") == Metaint(Atol(value) % ULongRange)
  {
    var text := MetaintTag + value;
    var tagged := text + "\r\n";
    assert '\0' !in tagged && '\r' !in text by {
      assert forall k :: 0 <= k < |text| ==> text[k] != '\0' && text[k] != '\r';
    }
    assert CutAt(tagged, '\0') == tagged;
    assert tagged[|text|] == '\r';
    assert CutAt(tagged, '\r') == text;
    assert text[|MetaintTag|..] == value;
  }

  /**
   * `atol` of a negative interval is stored into the `u_long` modulo 2^32,
   * so the interval is never negative: `icy-metaint:-1` gives the largest
   * one there is.
   */
  lemma NegativeMetaintWraps(v: int)
    requires v < 0
    ensures Classify(MetaintTag + SignedDecimal(v) + "\r\n") == Metaint(v % ULongRange)
    ensures v == -1 ==> Classify(MetaintTag + SignedDecimal(v) + "\r\n") == Metaint(4294967295)
  {
    SignedPlain(v);
    TaggedLine(SignedDecimal(v));
    AtolSignedDecimalThen(v, []);
    assert SignedDecimal(v) + [] == SignedDecimal(v);
    if v == -1 {
      MinusOneWraps();
    }
  }

  lemma MinusOneWraps()
    ensures -1 % ULongRange == 4294967295
  {
  }

  /** A number printed with `%ld` has no NUL or CR in it. */
  lemma SignedPlain(v: int)
    ensures '\0' !in SignedDecimal(v) && '\r' !in SignedDecimal(v)
  {
    var t := SignedDecimal(v);
    if v < 0 {
      var digits := Decimal(-v);
      assert t == "-" + digits;
      assert forall k :: 0 <= k < |digits| ==> IsDigit(digits[k]);
    }
    assert forall k :: 0 <= k < |t| ==> t[k] != '\0' && t[k] != '\r';
  }

  /**
   * `ConnectStation`: when the connection and the stream can be made, the
   * request is sent and the response header read up to its empty line;
   * the interval is written only by an `icy-metaint:` line. Otherwise the
   * result is NULL and nothing is sent or read.
   */
  method ConnectStation(s: Socket, connected: bool, streamOk: bool, host: string, metaint: nat)
    returns (ok: bool, metaint': nat)
    requires s.Valid()
    modifies s
    ensures s.Valid()
    ensures ok <==> connected && streamOk
    ensures !ok ==> s.output == old(s.output) && s.pos == old(s.pos) && metaint' == metaint
    ensures ok ==> s.output == old(s.output) + StationRequest(host)
    ensures ok ==> s.pos == ScanHeader(Kinds(s.input), old(s.pos), metaint).pos
    ensures ok ==> metaint' == ScanHeader(Kinds(s.input), old(s.pos), metaint).metaint
  {
    metaint' := metaint;
    if !connected || !streamOk {
      return false, metaint;
    }
    ok := true;
    s.Write(StationRequest(host));
    metaint' := ReadHeader(s, metaint);
  }

  /** The header loop of `ConnectStation`: `fgets` until the empty line or the end of the input. */
  method ReadHeader(s: Socket, metaint: nat) returns (metaint': nat)
    requires s.Valid()
    modifies s
    ensures s.Valid() && s.output == old(s.output)
    ensures s.pos == ScanHeader(Kinds(s.input), old(s.pos), metaint).pos
    ensures metaint' == ScanHeader(Kinds(s.input), old(s.pos), metaint).metaint
  {
    metaint' := metaint;
    ghost var start := s.pos;
    ghost var kinds := Kinds(s.input);
    while true
      invariant s.Valid() && start <= s.pos && s.output == old(s.output)
      invariant ScanHeader(kinds, start, metaint).pos == ScanHeader(kinds, s.pos, metaint').pos
      invariant ScanHeader(kinds, start, metaint).metaint == ScanHeader(kinds, s.pos, metaint').metaint
      decreases |s.input| - s.pos
    {
      ghost var i := s.pos;
      var raw := s.ReadLine();
      if raw.None? {
        break;
      }
      KindAt(s.input, i);
      ScanStep(kinds, i, metaint');
      var ends;
      ends, metaint' := HeaderLine(raw.value, metaint');
      if ends {
        break;
      }
    }
  }

  /**
   * The body of the header loop for one line: skip it when it has no CR,
   * stop at the empty line, take the interval from an `icy-metaint:` line.
   */
  method HeaderLine(raw: string, metaint: nat) returns (ends: bool, metaint': nat)
    ensures ends <==> Classify(raw).Empty?
    ensures metaint' == Carry(Classify(raw), metaint)
  {
    metaint' := metaint;
    var line := CutCR(raw);
    if line.None? {
      return false, metaint;
    }
    if line.value == [] {
      return true, metaint;
    }
    if Prefix(line.value, MetaintTag) {
      metaint' := Atol(line.value[|MetaintTag|..]) % ULongRange;
    }
    ends := false;
  }

  // ---------------------------------------------------------------------
  // One metadata block (`ProcessMetaData`)
  // ---------------------------------------------------------------------

  /** The outcome of reading `cnt` bytes by successive partial reads. */
  datatype Filled = Filled(ok: bool, at: Cursor)

  /**
   * The read loop of `ProcessMetaData`: each `fread` asks for what is
   * still missing; a read of no bytes fails the block, and the block is
   * complete when exactly `cnt` bytes have come.
   */
  function Fill(data: seq<byte>, avail: seq<nat>, c: Cursor, cnt: nat): (r: Filled)
    requires c.pos <= |data| && cnt > 0
    ensures c.pos <= r.at.pos <= |data| && c.calls < r.at.calls
    ensures r.ok ==> r.at.pos == c.pos + cnt
    ensures !r.ok ==> r.at.pos < c.pos + cnt
    ensures c.pos + cnt > |data| ==> !r.ok
    decreases cnt
  {
    var got := Got(data, avail, c, cnt);
    var next := After(data, avail, c, cnt);
    if got == 0 then Filled(false, next)
    else if got == cnt then Filled(true, next)
    else Fill(data, avail, next, cnt - got)
  }

  /** The block arrives whenever the bytes are there and none of the reads it needs finds nothing ready. */
  lemma {:induction false} FillSucceeds(data: seq<byte>, avail: seq<nat>, c: Cursor, cnt: nat)
    requires c.pos + cnt <= |data| && cnt > 0
    requires c.calls + cnt <= |avail|
    requires forall k :: c.calls <= k < c.calls + cnt ==> avail[k] > 0
    ensures Fill(data, avail, c, cnt).ok
    decreases cnt
  {
    var got := Got(data, avail, c, cnt);
    if got != cnt {
      FillSucceeds(data, avail, After(data, avail, c, cnt), cnt - got);
    }
  }

  /** What `ProcessMetaData` returns and how far it read. */
  datatype MetaResult = MetaResult(rc: int, at: Cursor)

  /**
   * `ProcessMetaData`: read the length byte; 0 means no metadata; more
   * than 32 blocks, or no memory for the block, fail; otherwise the
   * 16-byte blocks are read whole.
   */
  function MetaBlock(data: seq<byte>, avail: seq<nat>, c: Cursor, allocOk: bool): (r: MetaResult)
    requires c.pos <= |data|
    ensures r.rc == 0 || r.rc == -1
    ensures r.at.pos <= |data| && c.pos <= r.at.pos
    ensures Got(data, avail, c, 1) != 1 ==> r == MetaResult(-1, After(data, avail, c, 1))
    ensures r.rc == 0 ==> c.pos < |data| && data[c.pos] as int <= MaxBlocks
                          && r.at.pos == c.pos + 1 + BlockSize * data[c.pos] as nat
    ensures Got(data, avail, c, 1) == 1 && data[c.pos] == 0 ==> r.rc == 0
    ensures Got(data, avail, c, 1) == 1 && (data[c.pos] as int > MaxBlocks || (data[c.pos] != 0 && !allocOk))
            ==> r.rc == -1
  {
    var first := After(data, avail, c, 1);
    if Got(data, avail, c, 1) != 1 then MetaResult(-1, first)
    else
      var blocks := data[c.pos] as nat;
      if blocks == 0 then MetaResult(0, first)
      else if blocks > MaxBlocks || !allocOk then MetaResult(-1, first)
      else
        var block := Fill(data, avail, first, BlockSize * blocks);
        assert first.pos == c.pos + 1;
        MetaResult(if block.ok then 0 else -1, block.at)
  }

  /**
   * A well-formed metadata block is read whole when its bytes are there
   * and every read finds some: exactly one length byte and the 16-byte
   * blocks it counts are consumed.
   */
  lemma MetaBlockSucceeds(data: seq<byte>, avail: seq<nat>, c: Cursor, allocOk: bool)
    requires c.pos < |data| && data[c.pos] as int <= MaxBlocks && allocOk
    requires c.pos + 1 + BlockSize * data[c.pos] as nat <= |data|
    requires c.calls + 1 + BlockSize * data[c.pos] as nat <= |avail|
    requires forall k :: c.calls <= k <= c.calls + BlockSize * data[c.pos] as nat ==> avail[k] > 0
    ensures MetaBlock(data, avail, c, allocOk).rc == 0
    ensures MetaBlock(data, avail, c, allocOk).at.pos == c.pos + 1 + BlockSize * data[c.pos] as nat
  {
    if data[c.pos] != 0 {
      FillSucceeds(data, avail, After(data, avail, c, 1), BlockSize * data[c.pos] as nat);
    }
  }

  /** `ProcessMetaData` on the stream. */
  method ProcessMetaData(s: Stream, allocOk: bool) returns (rc: int)
    requires s.Valid()
    modifies s
    ensures s.Valid()
    ensures rc == MetaBlock(s.data, s.avail, old(s.at), allocOk).rc
    ensures s.at == MetaBlock(s.data, s.avail, old(s.at), allocOk).at
  {
    var start := s.at;
    var got := s.Read(1);
    if got != 1 {
      return -1;
    }
    var blocks := s.data[start.pos] as nat;
    if blocks == 0 {
      return 0;
    }
    if blocks > MaxBlocks || !allocOk {
      return -1;
    }
    var cnt: nat := BlockSize * blocks;
    ghost var first := s.at;
    var filled: nat := 0;
    while true
      invariant s.Valid() && 0 < cnt
      invariant Fill(s.data, s.avail, first, BlockSize * blocks) == Fill(s.data, s.avail, s.at, cnt)
      invariant s.at.pos == first.pos + filled && filled + cnt == BlockSize * blocks
      decreases cnt
    {
      got := s.Read(cnt);
      if got == 0 {
        return -1;
      }
      if got == cnt {
        break;
      }
      cnt := cnt - got;
      filled := filled + got;
    }
    rc := 0;
  }

  // ---------------------------------------------------------------------
  // The audio loop (`PlayMp3Stream`)
  // ---------------------------------------------------------------------

  /** What the audio loop does with the stream, in order. */
  datatype Event = Audio(want: nat, got: nat) | Block(rc: int)

  /** The audio bytes read since the last metadata block. */
  function AudioSince(log: seq<Event>): nat
  {
    if |log| == 0 then 0
    else
      match log[|log| - 1]
      case Block(_) => 0
      case Audio(_, got) => AudioSince(log[..|log| - 1]) + got
  }

  /** Every metadata block comes after exactly `metaint` audio bytes. */
  predicate Framed(log: seq<Event>, metaint: nat)
  {
    forall i :: 0 <= i < |log| && log[i].Block? ==> AudioSince(log[..i]) == metaint
  }

  /** No audio read asks for bytes past the next metadata block. */
  predicate Clamped(log: seq<Event>, metaint: nat)
  {
    forall i :: 0 <= i < |log| && log[i].Audio? ==> AudioSince(log[..i]) + log[i].want <= metaint
  }

  /** Appending an event keeps what is known about the earlier ones. */
  lemma Extended(log: seq<Event>, e: Event, metaint: nat)
    ensures (log + [e])[..|log|] == log
    ensures Framed(log, metaint) && (e.Block? ==> AudioSince(log) == metaint) ==> Framed(log + [e], metaint)
    ensures Clamped(log, metaint) && (e.Audio? ==> AudioSince(log) + e.want <= metaint) ==> Clamped(log + [e], metaint)
  {
    assert forall i :: 0 <= i <= |log| ==> (log + [e])[..i] == log[..i];
  }

  /** The last audio read's result, or 0 before the first read (`got` starts at 0). */
  function LastGot(log: seq<Event>): nat
  {
    if |log| == 0 then 0
    else if log[|log| - 1].Audio? then log[|log| - 1].got
    else LastGot(log[..|log| - 1])
  }

  /**
   * What holds between reads while playback goes on: every read so far
   * got something and no more than it asked for; with an interval, blocks
   * come every `metaint` audio bytes, no read crossed one, and `mp3left`
   * counts the audio bytes still due before the next; without one, there
   * are no blocks at all.
   */
  ghost predicate Playing(log: seq<Event>, metaint: nat, mp3left: nat)
  {
    && (forall i :: 0 <= i < |log| && log[i].Audio? ==> 0 < log[i].got <= log[i].want)
    && (metaint == 0 ==> forall i :: 0 <= i < |log| ==> log[i].Audio?)
    && (metaint != 0 ==> Framed(log, metaint) && Clamped(log, metaint)
                         && 0 < mp3left <= metaint && mp3left + AudioSince(log) == metaint)
  }

  /**
   * A read that gets bytes keeps playback going, or, when it reaches the
   * next block exactly, leaves that block due.
   */
  lemma AudioRead(log: seq<Event>, metaint: nat, mp3left: nat, want: nat, got: nat)
    requires Playing(log, metaint, mp3left)
    requires 0 < got <= want && (metaint != 0 ==> want <= mp3left)
    ensures metaint == 0 ==> Playing(log + [Audio(want, got)], metaint, mp3left)
    ensures metaint != 0 && got < mp3left ==> Playing(log + [Audio(want, got)], metaint, mp3left - got)
    ensures metaint != 0 && got == mp3left ==> BlockDue(log + [Audio(want, got)], metaint)
  {
    var e := Audio(want, got);
    Extended(log, e, metaint);
    assert (log + [e])[..|log|] == log;
  }

  /** Exactly `metaint` audio bytes since the last block, all read as in `Playing`. */
  ghost predicate BlockDue(log: seq<Event>, metaint: nat)
  {
    && metaint != 0
    && (forall i :: 0 <= i < |log| && log[i].Audio? ==> 0 < log[i].got <= log[i].want)
    && Framed(log, metaint) && Clamped(log, metaint) && AudioSince(log) == metaint
  }

  /** Reading the block that is due starts the countdown again, whatever the block reader returns. */
  lemma BlockRead(log: seq<Event>, metaint: nat, rc: int)
    requires BlockDue(log, metaint)
    ensures Playing(log + [Block(rc)], metaint, metaint)
  {
    Extended(log, Block(rc), metaint);
  }

  /** What playback leaves behind once it is over. */
  ghost predicate Played(log: seq<Event>, metaint: nat)
  {
    && (metaint != 0 ==> Framed(log, metaint) && Clamped(log, metaint) && AudioSince(log) < metaint)
    && (metaint == 0 ==> forall i :: 0 <= i < |log| ==> log[i].Audio?)
    && (forall i :: 0 <= i < |log| && log[i].Audio? ==> log[i].got <= log[i].want)
    && (forall i :: 0 <= i < |log| && log[i].Audio? && log[i].got == 0 ==> i == |log| - 1)
  }

  /** Playback that ends between reads, or at a read of nothing, leaves a well-framed log. */
  lemma PlaybackEnds(log: seq<Event>, metaint: nat, mp3left: nat, want: nat)
    requires Playing(log, metaint, mp3left)
    requires metaint != 0 ==> want <= mp3left
    ensures Played(log, metaint)
    ensures Played(log + [Audio(want, 0)], metaint) && LastGot(log + [Audio(want, 0)]) == 0
  {
    var e := Audio(want, 0);
    Extended(log, e, metaint);
    assert (log + [e])[..|log|] == log;
  }

  /** The audio loop between two reads: the stream, the events so far, `mp3left` and the last `got`. */
  datatype Player = Player(at: Cursor, log: seq<Event>, mp3left: nat, got: nat)

  /**
   * One `fread` of the audio loop asking for `want` bytes: with an
   * interval, the bytes got count down `mp3left`, and when it reaches 0 a
   * metadata block is read and the countdown starts again.
   */
  function Step(data: seq<byte>, avail: seq<nat>, metaint: nat, allocOk: bool, p: Player, want: nat): (q: Player)
    requires p.at.pos <= |data|
    requires metaint != 0 ==> want <= p.mp3left
    ensures p.at.pos <= q.at.pos <= |data| && q.got <= want
    ensures metaint != 0 && q.got > 0 ==> want - q.got <= q.mp3left
  {
    var got := Got(data, avail, p.at, want);
    var at := After(data, avail, p.at, want);
    var log := p.log + [Audio(want, got)];
    if got == 0 || metaint == 0 then Player(at, log, p.mp3left, got)
    else if got < p.mp3left then Player(at, log, p.mp3left - got, got)
    else
      var m := MetaBlock(data, avail, at, allocOk);
      Player(m.at, log + [Block(m.rc)], metaint, got)
  }

  /**
   * The inner loop of one pass, with `rbytes` still to read: each `fread`
   * asks for all of them, and a read of nothing leaves the loop.
   */
  function Drain(data: seq<byte>, avail: seq<nat>, metaint: nat, allocOk: bool, p: Player, rbytes: nat): (q: Player)
    requires p.at.pos <= |data|
    requires metaint != 0 ==> rbytes <= p.mp3left
    ensures p.at.pos <= q.at.pos <= |data|
    decreases rbytes
  {
    if rbytes == 0 then p
    else
      var q := Step(data, avail, metaint, allocOk, p, rbytes);
      if q.got == 0 then q else Drain(data, avail, metaint, allocOk, q, rbytes - q.got)
  }

  /** Where playback leaves the stream, what it did, and whether it stopped at a read of nothing. */
  datatype Playback = Playback(at: Cursor, log: seq<Event>, stopped: bool)

  /**
   * The outer loop over the passes, `room[i]` being the free space of pass
   * `i`: the read is clamped to `mp3left` when there is an interval, and
   * the loop ends after a pass whose last `got` is 0.
   */
  function Play(data: seq<byte>, avail: seq<nat>, metaint: nat, allocOk: bool, p: Player, room: seq<nat>): (r: Playback)
    requires p.at.pos <= |data|
    ensures p.at.pos <= r.at.pos <= |data|
    decreases |room|
  {
    if |room| == 0 then Playback(p.at, p.log, false)
    else
      var rbytes := if metaint != 0 && room[0] > p.mp3left then p.mp3left else room[0];
      var q := Drain(data, avail, metaint, allocOk, p, rbytes);
      if q.got == 0 then Playback(q.at, q.log, true)
      else Play(data, avail, metaint, allocOk, q, room[1..])
  }

  /**
   * One read keeps the framing: a read of nothing leaves the log played
   * out, any other keeps playback going with `mp3left` the bytes due
   * before the next block; the last `got` is the last audio read's.
   */
  lemma StepPlays(data: seq<byte>, avail: seq<nat>, metaint: nat, allocOk: bool, p: Player, want: nat)
    requires p.at.pos <= |data| && (metaint != 0 ==> want <= p.mp3left)
    requires Playing(p.log, metaint, p.mp3left) && LastGot(p.log) == p.got
    ensures var q := Step(data, avail, metaint, allocOk, p, want);
            && LastGot(q.log) == q.got
            && (q.got == 0 ==> Played(q.log, metaint))
            && (q.got > 0 ==> Playing(q.log, metaint, q.mp3left))
  {
    var got := Got(data, avail, p.at, want);
    var log := p.log + [Audio(want, got)];
    assert log[..|log| - 1] == p.log;
    if got == 0 {
      PlaybackEnds(p.log, metaint, p.mp3left, want);
    } else {
      AudioRead(p.log, metaint, p.mp3left, want, got);
      if metaint != 0 && got == p.mp3left {
        var m := MetaBlock(data, avail, After(data, avail, p.at, want), allocOk);
        var log' := log + [Block(m.rc)];
        BlockRead(log, metaint, m.rc);
        assert log'[..|log'| - 1] == log;
      }
    }
  }

  /** One pass keeps the framing as each of its reads does. */
  lemma {:induction false} DrainPlays(data: seq<byte>, avail: seq<nat>, metaint: nat, allocOk: bool, p: Player, rbytes: nat)
    requires p.at.pos <= |data| && (metaint != 0 ==> rbytes <= p.mp3left)
    requires Playing(p.log, metaint, p.mp3left) && LastGot(p.log) == p.got
    ensures var q := Drain(data, avail, metaint, allocOk, p, rbytes);
            && LastGot(q.log) == q.got
            && (rbytes == 0 ==> q == p)
            && (rbytes > 0 && q.got == 0 ==> Played(q.log, metaint))
            && (rbytes > 0 && q.got > 0 ==> Playing(q.log, metaint, q.mp3left))
    decreases rbytes
  {
    if rbytes > 0 {
      var q := Step(data, avail, metaint, allocOk, p, rbytes);
      StepPlays(data, avail, metaint, allocOk, p, rbytes);
      if q.got > 0 {
        DrainPlays(data, avail, metaint, allocOk, q, rbytes - q.got);
      }
    }
  }

  /**
   * Playback from a playing state: every block comes exactly `metaint`
   * audio bytes after the previous one, no read asks past a block, and it
   * stops exactly when a pass ends with a read of nothing.
   */
  lemma {:induction false} PlayFrames(data: seq<byte>, avail: seq<nat>, metaint: nat, allocOk: bool, p: Player, room: seq<nat>)
    requires p.at.pos <= |data|
    requires Playing(p.log, metaint, p.mp3left) && LastGot(p.log) == p.got
    ensures var r := Play(data, avail, metaint, allocOk, p, room);
            Played(r.log, metaint) && (r.stopped <==> |room| > 0 && LastGot(r.log) == 0)
    decreases |room|
  {
    if |room| == 0 {
      PlaybackEnds(p.log, metaint, p.mp3left, 0);
    } else {
      var rbytes := if metaint != 0 && room[0] > p.mp3left then p.mp3left else room[0];
      var q := Drain(data, avail, metaint, allocOk, p, rbytes);
      DrainPlays(data, avail, metaint, allocOk, p, rbytes);
      if q.got == 0 {
        if rbytes == 0 {
          PlaybackEnds(p.log, metaint, p.mp3left, 0);
        }
      } else {
        PlayFrames(data, avail, metaint, allocOk, q, room[1..]);
      }
    }
  }

  /** One read of the audio loop over the stream, and the metadata block it makes due. */
  method ReadOnce(s: Stream, metaint: nat, allocOk: bool, want: nat, mp3left: nat, got: nat, ghost log: seq<Event>)
    returns (mp3left': nat, got': nat, ghost log': seq<Event>)
    requires s.Valid() && (metaint != 0 ==> want <= mp3left)
    modifies s
    ensures s.Valid()
    ensures Player(s.at, log', mp3left', got') ==
            Step(s.data, s.avail, metaint, allocOk, Player(old(s.at), log, mp3left, got), want)
  {
    mp3left' := mp3left;
    got' := s.Read(want);
    log' := log + [Audio(want, got')];
    if got' != 0 && metaint != 0 {
      mp3left' := mp3left' - got';
      if mp3left' == 0 {
        var rc := ProcessMetaData(s, allocOk);
        log' := log' + [Block(rc)];
        mp3left' := metaint;
      }
    }
  }

  /** The inner loop of one pass over the stream, with `rbytes` to read. */
  method ReadPass(s: Stream, metaint: nat, allocOk: bool, rbytes: nat, mp3left: nat, got: nat, ghost log: seq<Event>)
    returns (mp3left': nat, got': nat, ghost log': seq<Event>)
    requires s.Valid() && (metaint != 0 ==> rbytes <= mp3left)
    modifies s
    ensures s.Valid()
    ensures Player(s.at, log', mp3left', got') ==
            Drain(s.data, s.avail, metaint, allocOk, Player(old(s.at), log, mp3left, got), rbytes)
  {
    mp3left', got', log' := mp3left, got, log;
    var left: nat := rbytes;
    ghost var drained := Drain(s.data, s.avail, metaint, allocOk, Player(s.at, log, mp3left, got), rbytes);
    while left != 0
      invariant s.Valid()
      invariant metaint != 0 ==> left <= mp3left'
      invariant Drain(s.data, s.avail, metaint, allocOk, Player(s.at, log', mp3left', got'), left) == drained
      decreases left
    {
      mp3left', got', log' := ReadOnce(s, metaint, allocOk, left, mp3left', got', log');
      if got' == 0 {
        break;
      }
      left := left - got';
    }
  }

  /**
   * `PlayMp3Stream` over the passes the player makes, where `room[i]` is
   * the free space `NutSegBufWriteRequest` offers in pass `i`: the stream
   * is read, and the events logged, exactly as `Play` says. So each read
   * asks for no more than the room, and with an interval also no more
   * than `mp3left`; every block comes exactly `metaint` audio bytes after
   * the previous one; and playback stops exactly on a read of nothing.
   */
  method PlayMp3Stream(s: Stream, metaint: nat, room: seq<nat>, allocOk: bool)
    returns (stopped: bool, ghost log: seq<Event>)
    requires s.Valid()
    modifies s
    ensures s.Valid()
    ensures var r := Play(s.data, s.avail, metaint, allocOk, Player(old(s.at), [], metaint, 0), room);
            s.at == r.at && log == r.log && stopped == r.stopped
    ensures Played(log, metaint)
    ensures stopped <==> |room| > 0 && LastGot(log) == 0
  {
    var mp3left: nat := metaint;
    var got: nat := 0;
    stopped := false;
    log := [];
    ghost var start := Player(s.at, [], metaint, 0);
    ghost var total := Play(s.data, s.avail, metaint, allocOk, start, room);
    var pass := 0;
    while pass < |room|
      invariant s.Valid() && pass <= |room|
      invariant Play(s.data, s.avail, metaint, allocOk, Player(s.at, log, mp3left, got), room[pass..]) == total
    {
      var rbytes: nat := room[pass];
      if metaint != 0 && rbytes > mp3left {
        rbytes := mp3left;
      }
      assert room[pass..][1..] == room[pass + 1..];
      mp3left, got, log := ReadPass(s, metaint, allocOk, rbytes, mp3left, got, log);
      if got == 0 {
        stopped := true;
        break;
      }
      pass := pass + 1;
    }
    PlayFrames(s.data, s.avail, metaint, allocOk, start, room);
  }
}
