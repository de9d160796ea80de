/**
 * The query-string parser of the HTTP engine. The text after `?` is cut
 * into segments at every `&`, each segment into a name and a value at its
 * first `=`, and both are URL-decoded in place. The C code keeps a table
 * of `2 * n` addresses in the query buffer: entry `2k` addresses the
 * k-th name, entry `2k + 1` to its value or is NULL when the segment has
 * no `=`. Offsets into the buffer stand for those addresses here, and -1 for
 * NULL.
 */
module Query {
  import opened Options
  import opened CString
  import opened UrlCodec

  /** The positions of `&` in `s[..p]`, in increasing order. */
  function Amps(s: string, p: nat): (a: seq<nat>)
    requires p <= |s|
    ensures |a| <= p
  {
    if p == 0 then [] else Amps(s, p - 1) + (if s[p - 1] == '&' then [p - 1] else [])
  }

  /** The positions found by a longer scan extend those of a shorter one. */
  lemma {:induction false} AmpsGrow(s: string, p: nat, p': nat)
    requires p <= p' <= |s|
    ensures Amps(s, p) <= Amps(s, p')
    decreases p' - p
  {
    if p < p' {
      AmpsGrow(s, p, p' - 1);
    }
  }

  /** How many times `c` occurs in `s`. */
  function Count(s: string, c: char): nat
  {
    if |s| == 0 then 0 else Count(s[..|s| - 1], c) + (if s[|s| - 1] == c then 1 else 0)
  }

  /** There is one position per `&`. */
  lemma {:induction false} AmpsCount(s: string, p: nat)
    requires p <= |s|
    ensures |Amps(s, p)| == Count(s[..p], '&')
  {
    if p > 0 {
      AmpsCount(s, p - 1);
      assert s[..p][..p - 1] == s[..p - 1];
    }
  }

  /** Where segment `k` starts: at 0, or just after the k-th `&`. */
  function SegStart(a: seq<nat>, k: nat): nat
    requires k <= |a|
  {
    if k == 0 then 0 else a[k - 1] + 1
  }

  /** Where segment `k` ends: at the next `&`, or at the end of the text. */
  function SegEnd(a: seq<nat>, n: nat, k: nat): nat
    requires k <= |a|
  {
    if k < |a| then a[k] else n
  }

  /**
   * The segments of `s[..p]` lie in order and hold no `&`: segment `k` runs
   * from the start of the text or just after the k-th `&` to the next `&`
   * or the end.
   */
  lemma {:induction false} SegmentBounds(s: string, p: nat, k: nat)
    requires p <= |s| && k <= |Amps(s, p)|
    ensures SegStart(Amps(s, p), k) <= SegEnd(Amps(s, p), p, k) <= p
    ensures forall x :: SegStart(Amps(s, p), k) <= x < SegEnd(Amps(s, p), p, k) ==> s[x] != '&'
    ensures k < |Amps(s, p)| ==> SegEnd(Amps(s, p), p, k) < p && s[SegEnd(Amps(s, p), p, k)] == '&'
  {
    if p > 0 {
      var a := Amps(s, p - 1);
      if k <= |a| {
        SegmentBounds(s, p - 1, k);
      }
    }
  }

  /** Segment `k` of the query text. */
  function Segment(s: string, k: nat): (seg: string)
    requires k <= |Amps(s, |s|)|
    ensures '&' !in seg
  {
    SegmentBounds(s, |s|, k);
    s[SegStart(Amps(s, |s|), k)..SegEnd(Amps(s, |s|), |s|, k)]
  }

  /** The segments of the query text, in their order. */
  function Segments(s: string): (segs: seq<string>)
  {
    seq(|Amps(s, |s|)| + 1, k requires 0 <= k <= |Amps(s, |s|)| => Segment(s, k))
  }

  /** There are 1 + #`&` segments, none holding a `&`. */
  lemma SegmentsCount(s: string)
    ensures |Segments(s)| == 1 + Count(s, '&')
    ensures forall k :: 0 <= k < |Segments(s)| ==> '&' !in Segments(s)[k]
  {
    AmpsCount(s, |s|);
    assert s[..|s|] == s;
  }

  /** The segments joined again with `&` from segment `k` on. */
  function JoinFrom(segs: seq<string>, k: nat): string
    requires k < |segs|
    decreases |segs| - k
  {
    if k == |segs| - 1 then segs[k] else segs[k] + "&" + JoinFrom(segs, k + 1)
  }

  lemma {:induction false} JoinSegmentsFrom(s: string, k: nat)
    requires k <= |Amps(s, |s|)|
    ensures SegStart(Amps(s, |s|), k) <= |s|
    ensures JoinFrom(Segments(s), k) == s[SegStart(Amps(s, |s|), k)..]
    decreases |Amps(s, |s|)| - k
  {
    var a := Amps(s, |s|);
    SegmentBounds(s, |s|, k);
    var st := SegStart(a, k);
    if k < |a| {
      JoinSegmentsFrom(s, k + 1);
      assert Segments(s)[k] == s[st..a[k]];
      assert s[st..] == s[st..a[k]] + "&" + s[a[k] + 1..];
    } else {
      assert Segments(s)[k] == s[st..];
    }
  }

  /**
   * Cutting at every `&` loses nothing and changes no order: the segments
   * joined with `&` give the query back.
   */
  lemma JoinSegments(s: string)
    ensures JoinFrom(Segments(s), 0) == s
  {
    JoinSegmentsFrom(s, 0);
  }

  /** One entry of the table: a decoded name, and a decoded value or none. */
  datatype Param = Param(name: string, value: Option<string>)

  /** The outcome of `NutHttpProcessQueryString`. */
  datatype QueryTable =
    | NoQuery                      // no `?` in the request: nothing to do
    | OutOfMemory                  // the req_qptrs table was not allocated: 0 entries
    | Overrun                      // a truncated escape reads past a terminator
    | Params(params: seq<Param>)

  /** A segment split at its first `=` and decoded; `None` on an overrun. */
  function DecodeSegment(seg: string): Option<Param>
  {
    match Find(seg, '=')
    case None =>
      (match Decode(seg)
       case None => None
       case Some(n) => Some(Param(n, None)))
    case Some(i) =>
      (match (Decode(seg[..i]), Decode(seg[i + 1..]))
       case (Some(n), Some(v)) => Some(Param(n, Some(v)))
       case _ => None)
  }

  /** The segments decoded in order; `None` as soon as one overruns. */
  function DecodeParams(segs: seq<string>): (r: Option<seq<Param>>)
    ensures r.Some? ==> |r.value| == |segs|
  {
    if |segs| == 0 then Some([])
    else
      match (DecodeParams(segs[..|segs| - 1]), DecodeSegment(segs[|segs| - 1]))
      case (Some(ps), Some(p)) => Some(ps + [p])
      case _ => None
  }

  /** Once a segment overruns, so does every longer run of segments. */
  lemma {:induction false} DecodeParamsStaysNone(segs: seq<string>, k: nat)
    requires k <= |segs| && DecodeParams(segs[..k]).None?
    ensures DecodeParams(segs).None?
    decreases |segs| - k
  {
    if k < |segs| {
      assert segs[..k + 1][..k] == segs[..k];
      DecodeParamsStaysNone(segs, k + 1);
    } else {
      assert segs[..k] == segs;
    }
  }

  /** `NutHttpProcessQueryString` as a function of the query text. */
  function ParseQuery(query: Option<string>, allocOk: bool): QueryTable
  {
    if query.None? then NoQuery
    else if !allocOk then OutOfMemory
    else
      match DecodeParams(Segments(query.value))
      case None => Overrun
      case Some(ps) => Params(ps)
  }

  /**
   * One entry per segment, in source order: there are 1 + #`&` entries, and
   * entry `k` is segment `k` split at its first `=` and decoded.
   */
  lemma ParseQueryEntries(query: string)
    requires ParseQuery(Some(query), true).Params?
    ensures |ParseQuery(Some(query), true).params| == 1 + Count(query, '&')
    ensures forall k :: 0 <= k < 1 + Count(query, '&') ==>
              DecodeSegment(Segments(query)[k]) == Some(ParseQuery(Some(query), true).params[k])
  {
    var segs := Segments(query);
    SegmentsCount(query);
    forall k | 0 <= k < |segs|
      ensures DecodeSegment(segs[k]) == Some(DecodeParams(segs).value[k])
    {
      DecodeParamsEntry(segs, k);
    }
  }

  lemma {:induction false} DecodeParamsEntry(segs: seq<string>, k: nat)
    requires k < |segs| && DecodeParams(segs).Some?
    ensures DecodeSegment(segs[k]) == Some(DecodeParams(segs).value[k])
    decreases |segs|
  {
    var init := segs[..|segs| - 1];
    if k < |segs| - 1 {
      DecodeParamsEntry(init, k);
    }
  }

  /** A query without `&` and `=` is one name with no value. */
  lemma SingleName(query: string)
    requires '&' !in query && '=' !in query && Decode(query).Some?
    ensures ParseQuery(Some(query), true) == Params([Param(Decode(query).value, None)])
  {
    NoAmps(query, |query|);
    assert |Segments(query)| == 1;
    assert Segments(query)[0] == query[0..|query|] == query;
    assert Segments(query) == [query];
    assert Segments(query)[..0] == [];
  }

  lemma {:induction false} NoAmps(s: string, p: nat)
    requires p <= |s| && '&' !in s
    ensures Amps(s, p) == []
  {
    if p > 0 {
      NoAmps(s, p - 1);
      assert s[p - 1] in s;
    }
  }

  /** The text at offset `p` of a buffer: `d`, then the NUL that ends it. */
  predicate Placed(buf: seq<char>, p: nat, d: string)
  {
    p + |d| < |buf| && buf[p..p + |d|] == d && buf[p + |d|] == NUL
  }

  /** The C string that starts at offset `p`. */
  function CStringAt(buf: seq<char>, p: nat): string
    requires p <= |buf|
  {
    CutAt(buf[p..], NUL)
  }

  /** `strchr` finds the first occurrence. */
  lemma FindFirst(s: string, c: char, i: nat)
    requires i < |s| && s[i] == c && forall k :: 0 <= k < i ==> s[k] != c
    ensures Find(s, c) == Some(i)
  {
  }

  /** What a C reader sees at a placed text: the text up to its first NUL. */
  lemma PlacedCString(buf: seq<char>, p: nat, d: string)
    requires Placed(buf, p, d)
    ensures CStringAt(buf, p) == CutAt(d, NUL)
  {
    var t := buf[p..];
    assert t[..|d|] == d && t[|d|] == NUL;
    match Find(d, NUL)
    case None =>
      FindFirst(t, NUL, |d|);
    case Some(i) =>
      assert t[..i] == d[..i];
      FindFirst(t, NUL, i);
  }

  /** A placed text survives any change beyond its terminator. */
  lemma PlacedFrame(a: seq<char>, b: seq<char>, bound: nat, p: nat, d: string)
    requires bound <= |a| && bound <= |b| && a[..bound] == b[..bound]
    requires p + |d| < bound && Placed(a, p, d)
    ensures Placed(b, p, d)
  {
    assert a[p..p + |d|] == a[..bound][p..p + |d|];
    assert b[p..p + |d|] == b[..bound][p..p + |d|];
    assert a[p + |d|] == a[..bound][p + |d|];
    assert b[p + |d|] == b[..bound][p + |d|];
  }

  /** Entry `k` of the req_qptrs table holds parameter `prm`. */
  predicate Entry(buf: seq<char>, ptrs: seq<int>, k: nat, prm: Param)
    requires 2 * k + 1 < |ptrs|
  {
    0 <= ptrs[2 * k] && Placed(buf, ptrs[2 * k], prm.name) &&
    (prm.value.None? <==> ptrs[2 * k + 1] == -1) &&
    (prm.value.Some? ==> 0 <= ptrs[2 * k + 1] && Placed(buf, ptrs[2 * k + 1], prm.value.value))
  }

  /** The end of the part of the buffer an entry may occupy. */
  predicate EntryBelow(ptrs: seq<int>, k: nat, prm: Param, bound: nat)
    requires 2 * k + 1 < |ptrs|
  {
    ptrs[2 * k] + |prm.name| < bound &&
    (prm.value.Some? ==> ptrs[2 * k + 1] + |prm.value.value| < bound)
  }

  /** A placed text survives any change before its start. */
  lemma PlacedFrameAfter(a: seq<char>, b: seq<char>, from: nat, p: nat, d: string)
    requires from <= |a| && |a| == |b| && a[from..] == b[from..]
    requires from <= p && Placed(a, p, d)
    ensures Placed(b, p, d)
  {
    forall x | p <= x <= p + |d|
      ensures a[x] == b[x]
    {
      assert a[x] == a[from..][x - from];
      assert b[x] == b[from..][x - from];
    }
    assert a[p..p + |d|] == b[p..p + |d|];
  }

  /** Two buffers that agree from `i` on agree from any later `j` on. */
  lemma SuffixAgree(a: seq<char>, b: seq<char>, i: nat, j: nat)
    requires i <= j <= |a| && |a| == |b| && a[i..] == b[i..]
    ensures a[j..] == b[j..]
  {
    assert a[j..] == a[i..][j - i..];
    assert b[j..] == b[i..][j - i..];
  }

  /** Two buffers that agree below `j` agree below any earlier `i`. */
  lemma PrefixAgree(a: seq<char>, b: seq<char>, i: nat, j: nat)
    requires i <= j <= |a| && j <= |b| && a[..j] == b[..j]
    ensures a[..i] == b[..i]
  {
    assert a[..i] == a[..j][..i];
    assert b[..i] == b[..j][..i];
  }

  /** A part of a text without NUL holds no NUL. */
  lemma NoNulIn(s: seq<char>, i: nat, j: nat)
    requires i <= j <= |s| && NUL !in s
    ensures NUL !in s[i..j]
  {
    assert forall x :: x in s[i..j] ==> x in s;
  }

  /**
   * The inner scan of the third loop: the offset of the first `=` of the
   * segment from `st` to its NUL at `en`, or `en` when there is none.
   */
  method FindEquals(q: array<char>, st: nat, ghost en: nat) returns (ptr: nat)
    requires st <= en < q.Length && q[en] == NUL && NUL !in q[st..en]
    ensures st <= ptr <= en
    ensures forall x :: st <= x < ptr ==> q[x] != '='
    ensures ptr < en ==> q[ptr] == '='
  {
    ptr := st;
    while q[ptr] != NUL && q[ptr] != '='
      invariant st <= ptr <= en
      invariant forall x :: st <= x < ptr ==> q[x] != '='
      decreases en - ptr
    {
      ptr := ptr + 1;
    }
    if ptr < en {
      assert q[st..en][ptr - st] == q[ptr];
    }
  }

  /** The `=` at `ptr` becomes a NUL and the value after it is decoded in place. */
  method CutValue(q: array<char>, ptr: nat, ghost en: nat, ghost value: string) returns (ok: bool)
    requires ptr < en < q.Length && q[ptr] == '=' && q[en] == NUL
    requires q[ptr + 1..en] == value && NUL !in value
    modifies q
    ensures ok <==> Decode(value).Some?
    ensures ok ==> ptr + 1 + |Decode(value).value| <= en && Placed(q[..], ptr + 1, Decode(value).value)
    ensures q[..ptr] == old(q[..ptr]) && q[ptr] == NUL && q[en + 1..] == old(q[en + 1..])
  {
    q[ptr] := NUL;
    assert q[ptr + 1..en] == value;
    ghost var cut := q[..];
    var vlen;
    vlen, ok := URLDecode(q, ptr + 1, en, value);
    PrefixAgree(q[..], cut, ptr, ptr + 1);
    assert q[ptr] == q[..ptr + 1][ptr];
    if ok {
      assert q[ptr + 1..ptr + 1 + vlen] == Decode(value).value && q[ptr + 1 + vlen] == NUL;
    }
  }

  /**
   * A segment with an `=` at `ptr`, the name before it and the value after
   * it: the `=` becomes a NUL, then the value and the name are decoded in
   * place, in that order. `ok` is false on an overrun in either.
   */
  method DecodePair(q: array<char>, st: nat, ptr: nat, ghost en: nat, ghost name: string, ghost value: string)
    returns (ok: bool)
    requires st <= ptr < en < q.Length && q[ptr] == '=' && q[en] == NUL
    requires q[st..ptr] == name && q[ptr + 1..en] == value && NUL !in name && NUL !in value
    modifies q
    ensures ok <==> Decode(name).Some? && Decode(value).Some?
    ensures ok ==> st + |Decode(name).value| <= ptr && Placed(q[..], st, Decode(name).value)
    ensures ok ==> ptr + 1 + |Decode(value).value| <= en && Placed(q[..], ptr + 1, Decode(value).value)
    ensures q[..st] == old(q[..st]) && q[en + 1..] == old(q[en + 1..])
  {
    ghost var orig := q[..];
    ok := CutValue(q, ptr, en, value);
    PrefixAgree(q[..], orig, st, ptr);
    if !ok {
      return;
    }
    ghost var v := Decode(value).value;
    assert q[st..ptr] == q[..ptr][st..] == orig[..ptr][st..] == name;
    ghost var mid := q[..];
    var nlen;
    nlen, ok := URLDecode(q, st, ptr, name);
    SuffixAgree(q[..], mid, ptr + 1, en + 1);
    PrefixAgree(q[..], mid, st, st);
    if ok {
      assert q[st..st + nlen] == Decode(name).value && q[st + nlen] == NUL;
      assert Placed(q[..], st, Decode(name).value);
      assert Placed(mid, ptr + 1, v);
      assert mid[ptr + 1..] == q[ptr + 1..];
      PlacedFrameAfter(mid, q[..], ptr + 1, ptr + 1, v);
    }
  }

  /** A segment with its first `=` at `i` decodes into both halves. */
  lemma SegmentWithValue(seg: string, i: nat)
    requires Find(seg, '=') == Some(i)
    ensures DecodeSegment(seg).Some? <==> Decode(seg[..i]).Some? && Decode(seg[i + 1..]).Some?
    ensures DecodeSegment(seg).Some? ==>
              DecodeSegment(seg).value == Param(Decode(seg[..i]).value, Some(Decode(seg[i + 1..]).value))
  {
  }

  /** A segment without `=` decodes into a name alone. */
  lemma SegmentWithoutValue(seg: string)
    requires Find(seg, '=').None?
    ensures DecodeSegment(seg).Some? <==> Decode(seg).Some?
    ensures DecodeSegment(seg).Some? ==> DecodeSegment(seg).value == Param(Decode(seg).value, None)
  {
  }

  /** `strchr` finds nothing in a text without the character. */
  lemma FindNone(s: string, c: char)
    requires forall k :: 0 <= k < |s| ==> s[k] != c
    ensures Find(s, c).None?
  {
  }

  /**
   * The body of the third loop for one segment, the C string from `st` to
   * the NUL at `en`: looks for the first `=`, cuts there, decodes the value
   * and then the name in place. `valuePtr` is the value's offset, -1 when
   * there is no `=`; `ok` is false on an overrun.
   */
  method DecodeEntry(q: array<char>, st: nat, ghost en: nat, ghost seg: string)
    returns (valuePtr: int, ok: bool, ghost prm: Param)
    requires st <= en < q.Length && q[en] == NUL && q[st..en] == seg && NUL !in seg
    modifies q
    ensures ok <==> DecodeSegment(seg).Some?
    ensures ok ==> prm == DecodeSegment(seg).value
    ensures ok ==> Placed(q[..], st, prm.name) && st + |prm.name| <= en
    ensures ok ==> (prm.value.None? <==> valuePtr == -1)
    ensures ok && prm.value.Some? ==>
              st < valuePtr && valuePtr + |prm.value.value| <= en && Placed(q[..], valuePtr, prm.value.value)
    ensures q[..st] == old(q[..st]) && q[en + 1..] == old(q[en + 1..])
  {
    prm := Param([], None);
    var ptr := FindEquals(q, st, en);
    if q[ptr] == '=' {
      ghost var i := ptr - st;
      assert seg[..i] == q[st..ptr] && seg[i + 1..] == q[ptr + 1..en];
      FindFirst(seg, '=', i);
      SegmentWithValue(seg, i);
      NoNulIn(seg, 0, i);
      NoNulIn(seg, i + 1, |seg|);
      ok := DecodePair(q, st, ptr, en, seg[..i], seg[i + 1..]);
      valuePtr := ptr + 1;
      if ok {
        prm := Param(Decode(seg[..i]).value, Some(Decode(seg[i + 1..]).value));
      }
    } else {
      FindNone(seg, '=');
      SegmentWithoutValue(seg);
      valuePtr := -1;
      var nlen, nok := URLDecode(q, st, en, seg);
      ok := nok;
      if ok {
        prm := Param(Decode(seg).value, None);
      }
    }
  }

  /** The buffer after the second loop: every `&` replaced by a NUL. */
  function NulAt(s: string, x: nat): char
    requires x < |s|
  {
    if s[x] == '&' then NUL else s[x]
  }

  /** Segment `k` as it lies in the buffer after the second loop. */
  lemma SegmentSlice(s: string, mid: seq<char>, k: nat)
    requires NUL !in s && |mid| == |s| + 1 && mid[|s|] == NUL
    requires forall x :: 0 <= x < |s| ==> mid[x] == NulAt(s, x)
    requires k <= |Amps(s, |s|)|
    ensures SegStart(Amps(s, |s|), k) <= SegEnd(Amps(s, |s|), |s|, k) <= |s|
    ensures k < |Amps(s, |s|)| ==> SegEnd(Amps(s, |s|), |s|, k) < |s|
    ensures mid[SegStart(Amps(s, |s|), k)..SegEnd(Amps(s, |s|), |s|, k)] == Segments(s)[k]
    ensures mid[SegEnd(Amps(s, |s|), |s|, k)] == NUL
    ensures NUL !in Segments(s)[k]
  {
    var a := Amps(s, |s|);
    var st, en := SegStart(a, k), SegEnd(a, |s|, k);
    SegmentBounds(s, |s|, k);
    assert mid[st..en] == Segments(s)[k];
    assert forall x :: x in s[st..en] ==> x in s;
  }

  /** Where segment `k` starts in the buffer. */
  function Starts(s: string): (r: seq<nat>)
    ensures |r| == |Segments(s)|
  {
    var a := Amps(s, |s|);
    seq(|a| + 1, k requires 0 <= k <= |a| => SegStart(a, k))
  }

  /** Where segment `k` ends in the buffer. */
  function Ends(s: string): (r: seq<nat>)
    ensures |r| == |Segments(s)|
  {
    var a := Amps(s, |s|);
    seq(|a| + 1, k requires 0 <= k <= |a| => SegEnd(a, |s|, k))
  }

  /** The buffer after the second loop: the query text with every `&` a NUL. */
  predicate CutBuffer(s: string, mid: seq<char>)
  {
    NUL !in s && |mid| == |s| + 1 && mid[|s|] == NUL &&
    forall x :: 0 <= x < |s| ==> mid[x] == NulAt(s, x)
  }

  /**
   * In the buffer after the second loop, segment `k` lies from its start
   * to a NUL, and the next one starts just after that NUL.
   */
  lemma Layout(s: string, mid: seq<char>, k: nat)
    requires CutBuffer(s, mid) && k < |Segments(s)|
    ensures Starts(s)[k] <= Ends(s)[k] < |mid| && mid[Starts(s)[k]..Ends(s)[k]] == Segments(s)[k]
    ensures mid[Ends(s)[k]] == NUL && NUL !in Segments(s)[k]
    ensures k + 1 < |Segments(s)| ==> Ends(s)[k] < |s| && Starts(s)[k + 1] == Ends(s)[k] + 1
  {
    SegmentSlice(s, mid, k);
  }

  /** Buffers that agree from `st` on agree on the text from `st` to `en` and at `en`. */
  lemma SliceAgree(a: seq<char>, b: seq<char>, st: nat, en: nat)
    requires st <= en < |a| && |a| == |b| && a[st..] == b[st..]
    ensures a[st..en] == b[st..en] && a[en] == b[en]
  {
    assert a[st..en] == a[st..][..en - st];
    assert b[st..en] == b[st..][..en - st];
    assert a[en] == a[st..][en - st];
    assert b[en] == b[st..][en - st];
  }

  /** An overrun in segment `k` is an overrun of the whole query. */
  lemma SegmentOverrun(segs: seq<string>, k: nat, ps: seq<Param>)
    requires k < |segs| && DecodeParams(segs[..k]) == Some(ps) && DecodeSegment(segs[k]).None?
    ensures DecodeParams(segs).None?
  {
    assert segs[..k + 1][..k] == segs[..k];
    DecodeParamsStaysNone(segs, k + 1);
  }

  /**
   * The first loop: one table entry for the text before the first `&` and
   * one more per `&`, so one per segment.
   */
  method CountEntries(q: array<char>) returns (numqptrs: nat)
    requires 0 < q.Length && q[q.Length - 1] == NUL && NUL !in q[..q.Length - 1]
    ensures numqptrs == 1 + Count(q[..q.Length - 1], '&')
    ensures numqptrs == |Segments(q[..q.Length - 1])|
  {
    ghost var s := q[..q.Length - 1];
    ghost var n := q.Length - 1;
    assert forall x :: 0 <= x < n ==> q[x] == s[x] && s[x] != NUL;
    numqptrs := 1;
    var p := 0;
    while q[p] != NUL
      invariant 0 <= p <= n
      invariant numqptrs == 1 + |Amps(s, p)|
      decreases n - p
    {
      if q[p] == '&' {
        numqptrs := numqptrs + 1;
      }
      p := p + 1;
    }
    AmpsCount(s, n);
    assert s[..n] == s;
  }

  /**
   * The second loop: every `&` becomes a NUL, and entry `2k` of the table
   * notes where segment `k` starts, entry `2k + 1` no value yet.
   */
  method CutSegments(q: array<char>, qptrs: array<int>, ghost s: string)
    requires q.Length == |s| + 1 && q[..|s|] == s && q[|s|] == NUL && NUL !in s
    requires qptrs.Length == 2 * (1 + |Amps(s, |s|)|)
    modifies q, qptrs
    ensures q[|s|] == NUL && forall x :: 0 <= x < |s| ==> q[x] == NulAt(s, x)
    ensures forall j :: 0 <= j <= |Amps(s, |s|)| ==>
              qptrs[2 * j] == SegStart(Amps(s, |s|), j) && qptrs[2 * j + 1] == -1
    ensures forall j :: 0 <= j < |Segments(s)| ==> qptrs[2 * j] == Starts(s)[j]
  {
    ghost var n := |s|;
    assert forall x :: 0 <= x < n ==> q[x] == s[x] && s[x] != NUL;
    qptrs[0] := 0;
    qptrs[1] := -1;
    var i := 2;
    var p := 0;
    ghost var amps: seq<nat> := [];
    while q[p] != NUL
      invariant 0 <= p <= n && q[n] == NUL
      invariant amps == Amps(s, p) && i == 2 * (1 + |amps|) <= qptrs.Length
      invariant forall j :: 0 <= j <= |amps| ==> qptrs[2 * j] == SegStart(amps, j) && qptrs[2 * j + 1] == -1
      invariant forall x :: 0 <= x < p ==> q[x] == NulAt(s, x)
      invariant forall x :: p <= x < n ==> q[x] == s[x]
      decreases n - p
    {
      AmpsGrow(s, p + 1, n);
      if q[p] == '&' {
        qptrs[i] := p + 1;
        qptrs[i + 1] := -1;
        q[p] := NUL;
        i := i + 2;
        amps := amps + [p];
      }
      p := p + 1;
    }
  }

  /** An entry survives changes to the buffer beyond it and to other entries. */
  lemma EntryFrame(a: seq<char>, b: seq<char>, bound: nat, ptrs: seq<int>, ptrs': seq<int>, k: nat, prm: Param)
    requires 2 * k + 1 < |ptrs| && 2 * k + 1 < |ptrs'|
    requires ptrs[2 * k] == ptrs'[2 * k] && ptrs[2 * k + 1] == ptrs'[2 * k + 1]
    requires bound <= |a| && bound <= |b| && a[..bound] == b[..bound]
    requires Entry(a, ptrs, k, prm) && EntryBelow(ptrs, k, prm, bound)
    ensures Entry(b, ptrs', k, prm) && EntryBelow(ptrs', k, prm, bound)
  {
    PlacedFrame(a, b, bound, ptrs[2 * k], prm.name);
    if prm.value.Some? {
      PlacedFrame(a, b, bound, ptrs[2 * k + 1], prm.value.value);
    }
  }

  /** The first `|ps|` entries of the table hold `ps`, all below `bound`. */
  predicate Entries(buf: seq<char>, ptrs: seq<int>, ps: seq<Param>, bound: nat)
  {
    2 * |ps| <= |ptrs| &&
    forall j :: 0 <= j < |ps| ==> Entry(buf, ptrs, j, ps[j]) && EntryBelow(ptrs, j, ps[j], bound)
  }

  /**
   * Decoding one more segment in place keeps the entries before it, which
   * lie below its start, and adds its own.
   */
  lemma EntriesExtend(before: seq<char>, after: seq<char>, pbefore: seq<int>, pafter: seq<int>,
                      ps: seq<Param>, prm: Param, st: nat, bound: nat)
    requires Entries(before, pbefore, ps, st) && st <= bound
    requires st <= |before| && st <= |after| && before[..st] == after[..st]
    requires |pbefore| == |pafter| && 2 * |ps| + 1 < |pafter|
    requires forall x :: 0 <= x < 2 * |ps| ==> pafter[x] == pbefore[x]
    requires Entry(after, pafter, |ps|, prm) && EntryBelow(pafter, |ps|, prm, bound)
    ensures Entries(after, pafter, ps + [prm], bound)
  {
    var ps' := ps + [prm];
    forall j | 0 <= j < |ps'|
      ensures Entry(after, pafter, j, ps'[j]) && EntryBelow(pafter, j, ps'[j], bound)
    {
      if j < |ps| {
        EntryFrame(before, after, st, pbefore, pafter, j, ps[j]);
      }
    }
  }

  /** Decoding one more segment extends the decoded prefix by its entry. */
  lemma DecodeParamsSnoc(segs: seq<string>, k: nat, ps: seq<Param>, prm: Param)
    requires k < |segs| && DecodeParams(segs[..k]) == Some(ps) && DecodeSegment(segs[k]) == Some(prm)
    ensures DecodeParams(segs[..k + 1]) == Some(ps + [prm])
  {
    assert segs[..k + 1][..k] == segs[..k];
  }

  /**
   * One round of the third loop: the segment at `qptrs[2k]` is decoded in
   * place and its value's offset stored in `qptrs[2k + 1]`.
   */
  method StoreEntry(q: array<char>, qptrs: array<int>, k: nat, ghost en: nat, ghost seg: string)
    returns (ok: bool, ghost prm: Param)
    requires 2 * k + 1 < qptrs.Length && 0 <= qptrs[2 * k] <= en < q.Length
    requires q[en] == NUL && q[qptrs[2 * k]..en] == seg && NUL !in seg
    modifies q, qptrs
    ensures ok <==> DecodeSegment(seg).Some?
    ensures ok ==> prm == DecodeSegment(seg).value
    ensures ok ==> Entry(q[..], qptrs[..], k, prm) && EntryBelow(qptrs[..], k, prm, en + 1)
    ensures q[..old(qptrs[2 * k])] == old(q[..qptrs[2 * k]]) && q[en + 1..] == old(q[en + 1..])
    ensures forall x :: 0 <= x < qptrs.Length && x != 2 * k + 1 ==> qptrs[x] == old(qptrs[x])
  {
    var valuePtr;
    valuePtr, ok, prm := DecodeEntry(q, qptrs[2 * k], en, seg);
    qptrs[2 * k + 1] := valuePtr;
  }

  /**
   * The state of the third loop before segment `k`: the first `k` entries
   * hold the first `k` segments decoded, below the start of segment `k`;
   * the buffer from there on is as the second loop left it; the later
   * entries still point at their segments.
   */
  predicate Progress(buf: seq<char>, ptrs: seq<int>, s: string, mid: seq<char>, k: nat, ps: seq<Param>)
  {
    var n := |Segments(s)|;
    k <= n && |ptrs| == 2 * n && |buf| == |mid| && |Starts(s)| == n &&
    |ps| == k && DecodeParams(Segments(s)[..k]) == Some(ps) &&
    (forall j :: k <= j < n ==> ptrs[2 * j] == Starts(s)[j]) &&
    (k < n ==> Starts(s)[k] < |buf| && buf[Starts(s)[k]..] == mid[Starts(s)[k]..]) &&
    Entries(buf, ptrs, ps, if k < n then Starts(s)[k] else |buf|)
  }

  /** One round of the third loop, from the state before segment `k` to the state after it. */
  method Advance(q: array<char>, qptrs: array<int>, k: nat, ghost s: string, ghost mid: seq<char>, ghost ps: seq<Param>)
    returns (ok: bool, ghost ps': seq<Param>)
    requires CutBuffer(s, mid) && k < |Segments(s)| && Progress(q[..], qptrs[..], s, mid, k, ps)
    modifies q, qptrs
    ensures ok ==> Progress(q[..], qptrs[..], s, mid, k + 1, ps')
    ensures !ok ==> DecodeParams(Segments(s)).None?
  {
    ps' := ps;
    ghost var segs := Segments(s);
    ghost var n := |segs|;
    ghost var st, en := Starts(s)[k], Ends(s)[k];
    Layout(s, mid, k);
    ghost var before := q[..];
    ghost var pbefore := qptrs[..];
    SliceAgree(before, mid, st, en);
    ghost var prm;
    ok, prm := StoreEntry(q, qptrs, k, en, segs[k]);
    if !ok {
      SegmentOverrun(segs, k, ps);
      return;
    }
    ghost var bound := if k + 1 < n then Starts(s)[k + 1] else q.Length;
    EntriesExtend(before, q[..], pbefore, qptrs[..], ps, prm, st, bound);
    DecodeParamsSnoc(segs, k, ps, prm);
    ps' := ps + [prm];
    if k + 1 < n {
      SuffixAgree(before, mid, st, en + 1);
      assert q[en + 1..] == before[en + 1..] == mid[en + 1..];
    }
  }

  /**
   * The third loop: each segment split at its first `=` and both halves
   * decoded in place, segment by segment. It stops at the first overrun.
   */
  method DecodeEntries(q: array<char>, qptrs: array<int>, numqptrs: nat, ghost s: string) returns (overrun: bool)
    requires q.Length == |s| + 1 && q[|s|] == NUL && NUL !in s
    requires forall x :: 0 <= x < |s| ==> q[x] == NulAt(s, x)
    requires numqptrs == |Segments(s)| && qptrs.Length == 2 * numqptrs
    requires forall j :: 0 <= j < numqptrs ==> qptrs[2 * j] == Starts(s)[j]
    modifies q, qptrs
    ensures overrun <==> DecodeParams(Segments(s)).None?
    ensures !overrun ==> forall k :: 0 <= k < numqptrs ==> Entry(q[..], qptrs[..], k, DecodeParams(Segments(s)).value[k])
  {
    ghost var mid := q[..];
    ghost var ps: seq<Param> := [];
    assert Segments(s)[..0] == [];
    var k := 0;
    while k < numqptrs
      invariant 0 <= k <= numqptrs
      invariant Progress(q[..], qptrs[..], s, mid, k, ps)
      decreases numqptrs - k
    {
      var ok;
      ok, ps := Advance(q, qptrs, k, s, mid, ps);
      if !ok {
        return true;
      }
      k := k + 1;
    }
    assert Segments(s)[..k] == Segments(s);
    overrun := false;
  }

  /**
   * `NutHttpProcessQueryString` on the query buffer `q` (the query text and
   * its NUL). `allocOk` is the outcome of allocating the req_qptrs table.
   * The processing stops at the first escape that would read past a
   * terminator, where the C code reads on.
   */
  method ProcessQueryString(q: array<char>, allocOk: bool) returns (numqptrs: nat, qptrs: array<int>, overrun: bool)
    requires 0 < q.Length && q[q.Length - 1] == NUL && NUL !in q[..q.Length - 1]
    modifies q
    ensures fresh(qptrs)
    ensures !allocOk ==> numqptrs == 0 && !overrun && q[..] == old(q[..])
    ensures allocOk ==> (overrun <==> ParseQuery(Some(old(q[..q.Length - 1])), true).Overrun?)
    ensures ParseQuery(Some(old(q[..q.Length - 1])), allocOk).Params? ==>
              var ps := ParseQuery(Some(old(q[..q.Length - 1])), allocOk).params;
              numqptrs == |ps| && qptrs.Length == 2 * numqptrs &&
              forall k :: 0 <= k < numqptrs ==> Entry(q[..], qptrs[..], k, ps[k])
  {
    ghost var s := q[..q.Length - 1];
    numqptrs := CountEntries(q);
    if !allocOk {
      qptrs := new int[0];
      numqptrs := 0;
      overrun := false;
      return;
    }
    qptrs := new int[numqptrs * 2];
    CutSegments(q, qptrs, s);
    overrun := DecodeEntries(q, qptrs, numqptrs, s);
  }
}
