/**
 * URL decoding as the HTTP engine does it: `+` becomes a space (form
 * encoding, section 17.13.4.1 of HTML 4.01) and `%XY` becomes the byte
 * whose hexadecimal value is XY (percent-encoding, section 2.1 of
 * RFC 3986). The two characters after `%` go through `strtol` with base
 * 16, unvalidated, and the decoder skips them even when the string ends
 * before them; the model returns `None` for such a truncated escape, where
 * the C code reads on past the terminating NUL.
 */
module UrlCodec {
  import opened Options
  import opened CString

  /** The NUL character that ends every C string. */
  const NUL: char := 0 as char

  predicate IsHexDigit(c: char)
  {
    '0' <= c <= '9' || 'a' <= c <= 'f' || 'A' <= c <= 'F'
  }

  function HexValue(c: char): (v: nat)
    requires IsHexDigit(c)
    ensures v < 16
  {
    if '0' <= c <= '9' then c as int - '0' as int
    else if 'a' <= c <= 'f' then c as int - 'a' as int + 10
    else c as int - 'A' as int + 10
  }

  /** A byte value as the C `char` the decoder stores. */
  function ByteChar(v: int): (c: char)
    ensures c as int < 256
  {
    (v % 256) as char
  }

  /**
   * `ch = strtol(hexstr, 0, 16)` for `hexstr = {c1, c2, 0}`: white space
   * and a sign may precede the digits, a lone "0x" reads as 0, no digit at
   * all gives 0, and the `long` is narrowed to a byte.
   */
  function EscapeByte(c1: char, c2: char): (b: char)
    ensures b as int < 256
    ensures IsHexDigit(c1) && IsHexDigit(c2) ==> b as int == 16 * HexValue(c1) + HexValue(c2)
  {
    if IsHexDigit(c1) then
      if IsHexDigit(c2) then ByteChar(16 * HexValue(c1) + HexValue(c2))
      else ByteChar(HexValue(c1))
    else if IsSpace(c1) || c1 == '+' then
      if IsHexDigit(c2) then ByteChar(HexValue(c2)) else ByteChar(0)
    else if c1 == '-' then
      if IsHexDigit(c2) then ByteChar(0 - HexValue(c2)) else ByteChar(0)
    else ByteChar(0)
  }

  /** `Some(c + t)` for `Some(t)`; an overrun stays an overrun. */
  function Cons(c: char, r: Option<string>): (r': Option<string>)
    ensures r'.Some? <==> r.Some?
    ensures r.Some? ==> r'.value == [c] + r.value
  {
    match r
    case None => None
    case Some(t) => Some([c] + t)
  }

  /** A `%` escape needs two characters after it. */
  predicate Truncated(s: string)
  {
    |s| > 0 && s[0] == '%' && |s| < 3
  }

  /** How many characters the first decoding step reads: three for an escape. */
  function HeadWidth(s: string): (k: nat)
    requires |s| > 0 && !Truncated(s)
    ensures 0 < k <= |s|
  {
    if s[0] == '%' then 3 else 1
  }

  /** The character the first decoding step writes. */
  function HeadChar(s: string): char
    requires |s| > 0 && !Truncated(s)
  {
    if s[0] == '+' then ' '
    else if s[0] == '%' then EscapeByte(s[1], s[2])
    else s[0]
  }

  /**
   * `NutHttpURLDecode` on the C string `s`: `None` when a `%` has fewer
   * than two characters after it.
   */
  function Decode(s: string): (r: Option<string>)
    decreases |s|
  {
    if |s| == 0 then Some([])
    else if Truncated(s) then None
    else Cons(HeadChar(s), Decode(s[HeadWidth(s)..]))
  }

  /** The decoded string is never longer than the encoded one. */
  lemma {:induction false} DecodeShrinks(s: string)
    requires Decode(s).Some?
    ensures |Decode(s).value| <= |s|
  {
    if |s| > 0 {
      DecodeShrinks(s[HeadWidth(s)..]);
    }
  }

  /** Text with neither `+` nor `%` decodes to itself. */
  lemma {:induction false} DecodePlain(s: string)
    requires '+' !in s && '%' !in s
    ensures Decode(s) == Some(s)
  {
    if |s| > 0 {
      assert s[0] in s;
      assert forall c :: c in s[1..] ==> c in s;
      DecodePlain(s[1..]);
      assert Decode(s).value == [s[0]] + s[1..] == s;
    }
  }

  /** Decoding a concatenation whose first part has no truncated escape. */
  lemma {:induction false} DecodeAppend(a: string, b: string)
    requires Decode(a).Some?
    ensures Decode(a + b).Some? <==> Decode(b).Some?
    ensures Decode(b).Some? ==> Decode(a + b).value == Decode(a).value + Decode(b).value
  {
    if |a| == 0 {
      assert a + b == b;
    } else {
      var k := HeadWidth(a);
      assert (a + b)[..k] == a[..k];
      assert (a + b)[0] == a[0] && (a + b)[k - 1] == a[k - 1];
      assert !Truncated(a + b) && HeadWidth(a + b) == k;
      assert HeadChar(a + b) == HeadChar(a) by {
        if a[0] == '%' { assert (a + b)[1] == a[1] && (a + b)[2] == a[2]; }
      }
      assert (a + b)[k..] == a[k..] + b;
      DecodeAppend(a[k..], b);
      if Decode(b).Some? {
        var c, x, y := HeadChar(a), Decode(a[k..]).value, Decode(b).value;
        assert Decode(a + b).value == [c] + (x + y);
        assert [c] + (x + y) == ([c] + x) + y;
      }
    }
  }

  /** A malformed escape is not rejected: "%zz" decodes to a NUL byte. */
  lemma MalformedEscapes()
    ensures Decode("%zz") == Some([NUL])
    ensures Decode("%-1") == Some([255 as char])
    ensures Decode("%0x") == Some([NUL])
  {
    assert "%zz"[3..] == [] && "%-1"[3..] == [] && "%0x"[3..] == [];
    assert Decode("%zz").value == [NUL];
    assert Decode("%-1").value == [255 as char];
    assert Decode("%0x").value == [NUL];
  }

  /** A `%` at the end, or one character before it, reads past the string. */
  lemma TruncatedEscapes()
    ensures Decode("%") == None
    ensures Decode("a%4") == None
    ensures Decode("%41") == Some("A")
  {
    assert "a%4"[1..] == "%4";
    assert "%41"[3..] == [];
    assert Decode("%41").value == "A";
  }

  /** The upper-case hexadecimal digit of `d`. */
  function HexChar(d: nat): (c: char)
    requires d < 16
    ensures IsHexDigit(c) && HexValue(c) == d
  {
    if d < 10 then ('0' as int + d) as char else ('A' as int + d - 10) as char
  }

  /** An unreserved character of section 2.3 of RFC 3986. */
  predicate Unreserved(c: char)
  {
    'a' <= c <= 'z' || 'A' <= c <= 'Z' || '0' <= c <= '9' || c == '-' || c == '.' || c == '_' || c == '~'
  }

  /**
   * The form encoder a browser applies: space as `+`, unreserved characters
   * as they are, every other byte as `%XY`.
   */
  function Encode(s: string): (r: string)
    requires forall i :: 0 <= i < |s| ==> s[i] as int < 256
  {
    if |s| == 0 then []
    else
      var c := s[0];
      var head := if c == ' ' then "+"
                  else if Unreserved(c) then [c]
                  else ['%', HexChar(c as int / 16), HexChar(c as int % 16)];
      head + Encode(s[1..])
  }

  /** Decoding undoes form encoding: every byte string comes back as it was. */
  lemma {:induction false} DecodeEncode(s: string)
    requires forall i :: 0 <= i < |s| ==> s[i] as int < 256
    ensures Decode(Encode(s)) == Some(s)
  {
    if |s| > 0 {
      var c := s[0];
      DecodeEncode(s[1..]);
      var e := Encode(s);
      if c == ' ' {
        assert e == "+" + Encode(s[1..]);
        assert e[1..] == Encode(s[1..]);
      } else if Unreserved(c) {
        assert e == [c] + Encode(s[1..]);
        assert e[1..] == Encode(s[1..]);
      } else {
        var x, y := HexChar(c as int / 16), HexChar(c as int % 16);
        assert e == ['%', x, y] + Encode(s[1..]);
        assert e[3..] == Encode(s[1..]);
        assert EscapeByte(x, y) == c;
      }
      assert Decode(e).value == [c] + s[1..] == s;
    }
  }

  /** In plain text, "%20" decodes to a space: "two%20words" is "two words". */
  lemma EscapedSpace(a: string, b: string)
    requires '+' !in a && '%' !in a && '+' !in b && '%' !in b
    ensures Decode(a + "%20" + b) == Some(a + " " + b)
  {
    var e := "%20" + b;
    DecodePlain(a);
    DecodePlain(b);
    assert e[0] == '%' && e[1] == '2' && e[2] == '0' && e[3..] == b;
    assert HeadChar(e) == ' ';
    assert Decode(e).value == [' '] + b;
    assert a + "%20" + b == a + e;
    DecodeAppend(a, e);
    assert Decode(a + e).value == a + ([' '] + b) == a + " " + b;
  }

  /** In plain text, a `+` decodes to a space: "a+b" is "a b". */
  lemma PlusIsSpace(a: string, b: string)
    requires '+' !in a && '%' !in a && '+' !in b && '%' !in b
    ensures Decode(a + "+" + b) == Some(a + " " + b)
  {
    var e := "+" + b;
    DecodePlain(a);
    DecodePlain(b);
    assert e[0] == '+' && e[1..] == b;
    assert Decode(e).value == [' '] + b;
    assert a + "+" + b == a + e;
    DecodeAppend(a, e);
    assert Decode(a + e).value == a + ([' '] + b) == a + " " + b;
  }

  /** One decoding step on its own: the character it writes. */
  lemma DecodeHead(t: string)
    requires |t| > 0 && !Truncated(t)
    ensures Decode(t[..HeadWidth(t)]).Some? && Decode(t[..HeadWidth(t)]).value == [HeadChar(t)]
  {
    var k := HeadWidth(t);
    var h := t[..k];
    assert h[0] == t[0] && |h| == k;
    assert !Truncated(h) && HeadWidth(h) == k;
    assert HeadChar(h) == HeadChar(t) by {
      if t[0] == '%' { assert h[1] == t[1] && h[2] == t[2]; }
    }
    assert h[k..] == [];
    assert Decode(h[k..]) == Some([]);
    assert Decode(h).value == [HeadChar(t)] + [];
  }

  /**
   * The loop invariant of the in-place decoder: after the first `i`
   * characters of `s`, a step boundary, the text `done` has been written.
   */
  lemma DecodeStep(s: string, i: nat, done: string)
    requires i < |s| && !Truncated(s[i..])
    requires Decode(s[..i]).Some? && Decode(s[..i]).value == done
    ensures i + HeadWidth(s[i..]) <= |s|
    ensures Decode(s[..i + HeadWidth(s[i..])]).Some?
    ensures Decode(s[..i + HeadWidth(s[i..])]).value == done + [HeadChar(s[i..])]
  {
    var t := s[i..];
    var k := HeadWidth(t);
    DecodeHead(t);
    assert s[..i + k] == s[..i] + t[..k];
    DecodeAppend(s[..i], t[..k]);
  }

  /** A truncated escape ahead makes the whole decoding an overrun. */
  lemma DecodeTruncated(s: string, i: nat)
    requires i < |s| && Truncated(s[i..]) && Decode(s[..i]).Some?
    ensures Decode(s).None?
  {
    assert s == s[..i] + s[i..];
    DecodeAppend(s[..i], s[i..]);
  }

  /**
   * Reads the next input character, and the two after a `%`, at `buf[r]`:
   * how many characters the step consumes and which one it writes, or
   * `truncated` when the escape runs into the terminator.
   */
  method ReadStep(buf: array<char>, r: nat, ghost end: nat) returns (k: nat, out: char, truncated: bool)
    requires r < end < buf.Length && buf[end] == NUL && NUL !in buf[r..end]
    ensures truncated <==> Truncated(buf[r..end])
    ensures !truncated ==> k == HeadWidth(buf[r..end]) && out == HeadChar(buf[r..end])
  {
    ghost var t := buf[r..end];
    assert t[0] == buf[r];
    assert r + 1 < end ==> t[1] == buf[r + 1];
    assert r + 2 < end ==> t[2] == buf[r + 2];
    var c := buf[r];
    k, out, truncated := 1, c, false;
    if c == '+' {
      out := ' ';
    } else if c == '%' {
      if buf[r + 1] == NUL || buf[r + 2] == NUL {
        truncated := true;
        return;
      }
      out := EscapeByte(buf[r + 1], buf[r + 2]);
      k := 3;
    }
  }

  /**
   * One pass of the decoding loop: reads at `r`, writes at `w`, and
   * returns the new read index; the text written so far stays the
   * decoding of the input consumed so far.
   */
  method DecodeOne(buf: array<char>, start: nat, r: nat, w: nat, ghost end: nat, ghost s: string)
    returns (r': nat, truncated: bool)
    requires start <= w <= r < end < buf.Length && buf[end] == NUL
    requires |s| == end - start && NUL !in s && buf[r..end] == s[r - start..]
    requires Decode(s[..r - start]).Some? && Decode(s[..r - start]).value == buf[start..w]
    modifies buf
    ensures truncated ==> Decode(s).None?
    ensures !truncated ==> r < r' <= end && buf[r'..end] == s[r' - start..]
    ensures !truncated ==> (buf[r'] == NUL <==> r' == end)
    ensures !truncated ==> Decode(s[..r' - start]).Some? && Decode(s[..r' - start]).value == buf[start..w + 1]
    ensures buf[..start] == old(buf[..start]) && buf[end..] == old(buf[end..])
  {
    ghost var i := r - start;
    ghost var done := buf[start..w];
    assert NUL !in buf[r..end] by {
      assert forall x :: x in s[i..] ==> x in s;
    }
    var k, out, truncated' := ReadStep(buf, r, end);
    truncated := truncated';
    if truncated {
      DecodeTruncated(s, i);
      r' := r;
      return;
    }
    DecodeStep(s, i, done);
    buf[w] := out;
    assert buf[start..w + 1] == done + [out];
    r' := r + k;
    assert buf[r'..end] == s[r' - start..] by {
      assert buf[r'..end] == old(buf[r'..end]);
      assert old(buf[r'..end]) == old(buf[r..end])[k..];
    }
    if r' < end {
      assert buf[r'] == s[r' - start];
    }
  }

  /**
   * `NutHttpURLDecode(buf + start)`: decodes in place the C string that
   * starts at `start` and ends in the NUL at `end`, with a read index and a
   * write index that never overtakes it, and writes the new terminator.
   * `ok` is false where the C code would read past the terminator; the
   * buffer is then left part-way through.
   */
  method URLDecode(buf: array<char>, start: nat, ghost end: nat, ghost s: string) returns (len: nat, ok: bool)
    requires start <= end < buf.Length && buf[end] == NUL
    requires buf[start..end] == s && NUL !in s
    modifies buf
    ensures ok <==> Decode(s).Some?
    ensures ok ==> start + len <= end && buf[start..start + len] == Decode(s).value
    ensures ok ==> buf[start + len] == NUL
    ensures buf[..start] == old(buf[..start]) && buf[end + 1..] == old(buf[end + 1..])
  {
    var r, w := start, start;
    assert s[..0] == [] && buf[start..w] == [] && s[0..] == s;
    if start < end {
      assert buf[start] == s[0];
    }
    while buf[r] != NUL
      invariant start <= w <= r <= end
      invariant buf[r] == NUL <==> r == end
      invariant buf[r..end] == s[r - start..]
      invariant buf[..start] == old(buf[..start]) && buf[end..] == old(buf[end..])
      invariant Decode(s[..r - start]).Some? && Decode(s[..r - start]).value == buf[start..w]
      decreases end - r
    {
      var truncated;
      r, truncated := DecodeOne(buf, start, r, w, end, s);
      if truncated {
        assert buf[end + 1..] == buf[end..][1..];
        len, ok := 0, false;
        return;
      }
      w := w + 1;
    }
    assert s[..r - start] == s;
    buf[w] := NUL;
    assert buf[end + 1..] == old(buf[end + 1..]) by {
      assert buf[end + 1..] == buf[end..][1..];
    }
    len, ok := w - start, true;
  }
}
