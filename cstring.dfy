/** The optional value used wherever the C code has a value that may be NULL. */
module Options {
  datatype Option<+T> = None | Some(value: T)
}

/**
 * The few routines of the C library that the HTTP engine and the stream
 * player lean on, over strings modelled as `seq<char>` (a C string without
 * its terminating NUL): `tolower`, `strcasecmp`/`strncasecmp`,
 * `strchr`/`strrchr`, the blank skipping of the request parser, `atol`
 * and the `%d` conversion of `printf`.
 */
module CString {
  import opened Options

  /** `tolower` in the C locale: only ASCII upper-case letters change. */
  function Lower(c: char): (r: char)
    ensures 'A' <= c <= 'Z' ==> r as int == c as int + 32
    ensures !('A' <= c <= 'Z') ==> r == c
  {
    if 'A' <= c <= 'Z' then (c as int + 32) as char else c
  }

  /** `strcasecmp(a, b) == 0`. */
  predicate EqualCI(a: string, b: string)
  {
    |a| == |b| && forall i :: 0 <= i < |a| ==> Lower(a[i]) == Lower(b[i])
  }

  /**
   * `strncasecmp(s, p, |p|) == 0`: the first |p| characters of `s` match `p`
   * ignoring case. A shorter `s` ends in its NUL, which never matches a
   * character of `p`.
   */
  predicate PrefixCI(s: string, p: string)
  {
    |p| <= |s| && EqualCI(s[..|p|], p)
  }

  /** `strncmp(s, p, |p|) == 0`: the case-sensitive prefix test. */
  predicate Prefix(s: string, p: string)
  {
    |p| <= |s| && s[..|p|] == p
  }

  lemma EqualCIReflexive(a: string)
    ensures EqualCI(a, a)
  {
  }

  /** `strchr`: the index of the first occurrence of `c`, if any. */
  function Find(s: string, c: char): (r: Option<nat>)
    ensures r.None? <==> c !in s
    ensures r.Some? ==> r.value < |s| && s[r.value] == c && c !in s[..r.value]
    ensures r.None? ==> forall k :: 0 <= k < |s| ==> s[k] != c
    ensures r.Some? ==> forall k :: 0 <= k < r.value ==> s[k] != c
  {
    if |s| == 0 then None
    else if s[0] == c then Some(0)
    else
      match Find(s[1..], c)
      case None => None
      case Some(i) =>
        assert s[1..][..i] == s[1..i + 1];
        assert s[..i + 1] == [s[0]] + s[1..i + 1];
        Some(i + 1)
  }

  /** `strrchr`: the index of the last occurrence of `c`, if any. */
  function FindLast(s: string, c: char): (r: Option<nat>)
    ensures r.None? <==> c !in s
    ensures r.Some? ==> r.value < |s| && s[r.value] == c && c !in s[r.value + 1..]
  {
    if |s| == 0 then None
    else if s[|s| - 1] == c then Some(|s| - 1)
    else
      var r := FindLast(s[..|s| - 1], c);
      assert r.Some? ==> s[r.value + 1..] == s[..|s| - 1][r.value + 1..] + [s[|s| - 1]];
      assert s == s[..|s| - 1] + [s[|s| - 1]];
      r
  }

  /**
   * Writing a NUL over the first `c` (`if ((cp = strchr(s, c))) *cp = 0;`)
   * leaves the text before it.
   */
  function CutAt(s: string, c: char): (r: string)
    ensures c !in r
    ensures r <= s
    ensures c in s ==> |r| < |s| && s[|r|] == c
    ensures c !in s ==> r == s
  {
    match Find(s, c)
    case None => s
    case Some(i) => s[..i]
  }

  /** The blanks that the request parser skips: space and horizontal tab. */
  predicate IsBlank(c: char)
  {
    c == ' ' || c == '\t'
  }

  /** `while (*str == ' ' || *str == '\t') str++;` */
  function SkipBlanks(s: string): (r: string)
    ensures |r| <= |s| && r == s[|s| - |r|..]
    ensures |r| > 0 ==> !IsBlank(r[0])
    ensures forall i :: 0 <= i < |s| - |r| ==> IsBlank(s[i])
  {
    if |s| > 0 && IsBlank(s[0]) then SkipBlanks(s[1..]) else s
  }

  /** `isspace` in the C locale, which `atol` skips. */
  predicate IsSpace(c: char)
  {
    c == ' ' || c == '\t' || c == '\n' || c == '\r' || c == 11 as char || c == 12 as char
  }

  predicate IsDigit(c: char)
  {
    '0' <= c <= '9'
  }

  function DigitValue(c: char): (d: nat)
    requires IsDigit(c)
    ensures d < 10
  {
    c as int - '0' as int
  }

  function DigitChar(d: nat): (c: char)
    requires d < 10
    ensures IsDigit(c) && DigitValue(c) == d
  {
    ('0' as int + d) as char
  }

  /** The longest prefix of `s` made of decimal digits. */
  function LeadingDigits(s: string): (r: string)
    ensures r <= s
    ensures forall i :: 0 <= i < |r| ==> IsDigit(r[i])
    ensures |r| < |s| ==> !IsDigit(s[|r|])
  {
    if |s| > 0 && IsDigit(s[0]) then [s[0]] + LeadingDigits(s[1..]) else []
  }

  /** The value of a string of decimal digits, most significant first. */
  function DigitsValue(ds: string): (v: nat)
    requires forall i :: 0 <= i < |ds| ==> IsDigit(ds[i])
  {
    if |ds| == 0 then 0 else DigitsValue(ds[..|ds| - 1]) * 10 + DigitValue(ds[|ds| - 1])
  }

  function SkipSpaces(s: string): (r: string)
    ensures |r| <= |s| && r == s[|s| - |r|..]
    ensures |r| > 0 ==> !IsSpace(r[0])
  {
    if |s| > 0 && IsSpace(s[0]) then SkipSpaces(s[1..]) else s
  }

  /**
   * `atol`: leading white space, an optional sign, then as many decimal
   * digits as follow; no digits give 0. Integers are unbounded here, so
   * the undefined overflow of a `long` is not modelled.
   */
  function Atol(s: string): int
  {
    var t := SkipSpaces(s);
    if |t| > 0 && t[0] == '-' then 0 - DigitsValue(LeadingDigits(t[1..]))
    else if |t| > 0 && t[0] == '+' then DigitsValue(LeadingDigits(t[1..]))
    else DigitsValue(LeadingDigits(t))
  }

  /** The `%d`/`%ld`/`%u` conversion of a non-negative number. */
  function Decimal(n: nat): (r: string)
    ensures |r| > 0
    ensures forall i :: 0 <= i < |r| ==> IsDigit(r[i])
  {
    if n < 10 then [DigitChar(n)] else Decimal(n / 10) + [DigitChar(n % 10)]
  }

  lemma {:induction false} DecimalValue(n: nat)
    ensures DigitsValue(Decimal(n)) == n
  {
    if n >= 10 {
      DecimalValue(n / 10);
      var r := Decimal(n);
      assert r[..|r| - 1] == Decimal(n / 10);
    }
  }

  lemma {:induction false} LeadingDigitsOfDigits(ds: string, rest: string)
    requires forall i :: 0 <= i < |ds| ==> IsDigit(ds[i])
    requires |rest| > 0 ==> !IsDigit(rest[0])
    ensures LeadingDigits(ds + rest) == ds
  {
    if |ds| > 0 {
      assert (ds + rest)[1..] == ds[1..] + rest;
      LeadingDigitsOfDigits(ds[1..], rest);
    } else {
      assert ds + rest == rest;
    }
  }

  /**
   * What the server prints as a number, `atol` reads back: the Content-Length
   * the header writer emits is the one the request parser would capture.
   */
  lemma AtolDecimal(n: nat)
    ensures Atol(Decimal(n)) == n
  {
    AtolDecimalThen(n, []);
    assert Decimal(n) + [] == Decimal(n);
  }

  /** The same, for a number followed by a line end or other non-digit text. */
  lemma AtolDecimalThen(n: nat, rest: string)
    requires |rest| > 0 ==> !IsDigit(rest[0])
    ensures Atol(Decimal(n) + rest) == n
  {
    var d := Decimal(n);
    assert (d + rest)[0] == d[0];
    assert SkipSpaces(d + rest) == d + rest;
    LeadingDigitsOfDigits(d, rest);
    DecimalValue(n);
  }

  /** The `%ld` conversion of a number of either sign. */
  function SignedDecimal(n: int): (r: string)
    ensures |r| > 0
  {
    if n < 0 then "-" + Decimal(-n) else Decimal(n)
  }

  /** A number printed with `%ld` and followed by non-digit text is read back by `atol`. */
  lemma AtolSignedDecimalThen(n: int, rest: string)
    requires |rest| > 0 ==> !IsDigit(rest[0])
    ensures Atol(SignedDecimal(n) + rest) == n
  {
    if n < 0 {
      var d := Decimal(-n);
      assert SignedDecimal(n) + rest == "-" + (d + rest);
      assert SkipSpaces("-" + (d + rest)) == "-" + (d + rest);
      assert ("-" + (d + rest))[1..] == d + rest;
      LeadingDigitsOfDigits(d, rest);
      DecimalValue(-n);
    } else {
      AtolDecimalThen(n, rest);
    }
  }
}
