/**
 * The mime registry of the HTTP server: a fixed table from file-name
 * extension to content type, searched for the first entry whose extension
 * ends the name, ignoring case. A handler (server side includes, ASP) may
 * be registered for an entry at run time; the handler lookup uses the same
 * search, so a file's handler always belongs to the entry that gives its
 * content type.
 */
module Mime {
  import opened Options
  import opened CString

  datatype MimeType = MimeType(ext: string, mtype: string)

  /** The table in its order; the C array ends in a NULL entry, not modelled. */
  const MimeTypes: seq<MimeType> := [
    MimeType(".txt", "text/plain"),
    MimeType(".html", "text/html"),
    MimeType(".shtml", "text/html"),
    MimeType(".asp", "text/html"),
    MimeType(".htm", "text/html"),
    MimeType(".gif", "image/gif"),
    MimeType(".jpg", "image/jpeg"),
    MimeType(".png", "image/png"),
    MimeType(".pdf", "application/pdf"),
    MimeType(".js", "application/x-javascript"),
    MimeType(".jar", "application/x-java-archive"),
    MimeType(".css", "text/css"),
    MimeType(".xml", "text/xml")
  ]

  /** No extension in the table is longer than this. */
  const MaxExtLength: nat := 6

  lemma ExtensionsAreShort(i: nat)
    requires i < |MimeTypes|
    ensures 0 < |MimeTypes[i].ext| <= MaxExtLength
  {
  }

  /**
   * The string `strcasecmp` sees at `&name[fl - el]` for an extension of
   * length `el`. When the extension is longer than the name this address
   * lies before the name, so the bytes there (`before`, the memory that
   * precedes the name, up to the nearest NUL) take part in the comparison.
   */
  function Window(before: string, name: string, el: nat): (w: string)
    ensures el <= |name| ==> w == name[|name| - el..]
    ensures |w| <= el
  {
    if el <= |name| then name[|name| - el..]
    else if el - |name| <= |before| then before[|before| - (el - |name|)..] + name
    else before + name
  }

  /** Entry `i`'s test in the scan of `NutGetMimeType` over the table `t`. */
  predicate Matches(t: seq<MimeType>, before: string, name: string, i: nat)
    requires i < |t|
  {
    EqualCI(Window(before, name, |t[i].ext|), t[i].ext)
  }

  /** `ext` ends `name`, ignoring case. */
  predicate SuffixCI(name: string, ext: string)
  {
    |ext| <= |name| && EqualCI(name[|name| - |ext|..], ext)
  }

  /**
   * The scan of table `t` from entry `i` on: the first matching entry, or
   * entry 0 when none matches.
   */
  function FirstMatch(t: seq<MimeType>, before: string, name: string, i: nat): (r: nat)
    requires 0 < |t| && i <= |t|
    ensures r < |t|
    decreases |t| - i
  {
    if i == |t| then 0
    else if Matches(t, before, name, i) then i
    else FirstMatch(t, before, name, i + 1)
  }

  /**
   * The scan stops at the first matching entry from `i` on, and gives
   * entry 0 when there is none.
   */
  lemma {:induction false} FirstMatchIsFirst(t: seq<MimeType>, before: string, name: string, i: nat)
    requires 0 < |t| && i <= |t|
    ensures var r := FirstMatch(t, before, name, i);
            (r == 0 || (i <= r && Matches(t, before, name, r))) &&
            (forall j :: i <= j < |t| && j < r ==> !Matches(t, before, name, j)) &&
            (r == 0 && !(i == 0 && Matches(t, before, name, 0)) ==>
               forall j :: i <= j < |t| ==> !Matches(t, before, name, j))
    decreases |t| - i
  {
    if i < |t| && !Matches(t, before, name, i) {
      FirstMatchIsFirst(t, before, name, i + 1);
    }
  }

  /**
   * The table index both lookups return: entry 1 for a NULL or empty name,
   * otherwise the first entry whose extension matches, entry 0 if none.
   */
  function MimeIndex(name: Option<string>, before: string): (i: nat)
    ensures i < |MimeTypes|
  {
    if name.None? || |name.value| == 0 then 1 else FirstMatch(MimeTypes, before, name.value, 0)
  }

  /** `NutGetMimeType`. */
  function GetMimeType(name: Option<string>, before: string): (t: string)
    ensures t in {"text/plain", "text/html", "image/gif", "image/jpeg", "image/png",
                  "application/pdf", "application/x-javascript",
                  "application/x-java-archive", "text/css", "text/xml"}
  {
    MimeTypes[MimeIndex(name, before)].mtype
  }

  /**
   * `NutGetMimeHandler`: the handler registered for the entry the search
   * selects, where `handlers` holds the entries that have one.
   */
  function GetMimeHandler(name: Option<string>, before: string, handlers: set<nat>): (h: Option<nat>)
    ensures h.Some? ==> h.value in handlers && h.value < |MimeTypes|
    ensures h.None? ==> MimeIndex(name, before) !in handlers
    ensures h.Some? ==> MimeTypes[h.value].mtype == GetMimeType(name, before)
  {
    var i := MimeIndex(name, before);
    if i in handlers then Some(i) else None
  }

  /** A NULL or empty name is HTML, whatever precedes it. */
  lemma EmptyNameIsHtml(before: string)
    ensures GetMimeType(None, before) == "text/html"
    ensures GetMimeType(Some(""), before) == "text/html"
  {
  }

  /** The reference search over suffixes alone. */
  function FirstSuffix(t: seq<MimeType>, name: string, i: nat): (r: nat)
    requires 0 < |t| && i <= |t|
    ensures r < |t|
    decreases |t| - i
  {
    if i == |t| then 0
    else if SuffixCI(name, t[i].ext) then i
    else FirstSuffix(t, name, i + 1)
  }

  /**
   * The reference search gives the first entry from `i` on whose extension
   * ends the name, and entry 0 when there is none.
   */
  lemma {:induction false} FirstSuffixIsFirst(t: seq<MimeType>, name: string, i: nat)
    requires 0 < |t| && i <= |t|
    ensures var r := FirstSuffix(t, name, i);
            (r == 0 || (i <= r && SuffixCI(name, t[r].ext))) &&
            (forall j :: i <= j < |t| && j < r ==> !SuffixCI(name, t[j].ext)) &&
            (r == 0 && !(i == 0 && SuffixCI(name, t[0].ext)) ==>
               forall j :: i <= j < |t| ==> !SuffixCI(name, t[j].ext))
    decreases |t| - i
  {
    if i < |t| && !SuffixCI(name, t[i].ext) {
      FirstSuffixIsFirst(t, name, i + 1);
    }
  }

  /**
   * For a name at least as long as every extension, the memory before it
   * plays no part: the scan is the search for the first case-insensitive
   * suffix.
   */
  lemma {:induction false} LongNameScan(t: seq<MimeType>, before: string, name: string, i: nat)
    requires 0 < |t| && i <= |t|
    requires forall j :: 0 <= j < |t| ==> |t[j].ext| <= |name|
    ensures FirstMatch(t, before, name, i) == FirstSuffix(t, name, i)
    decreases |t| - i
  {
    if i < |t| {
      LongNameScan(t, before, name, i + 1);
    }
  }

  /**
   * The lookup for a long name: the same for any memory before it, the
   * first case-insensitive suffix match, `text/plain` when nothing matches.
   */
  lemma LongNameLookup(name: string, before: string, other: string)
    requires |name| >= MaxExtLength
    ensures MimeIndex(Some(name), before) == MimeIndex(Some(name), other)
    ensures MimeIndex(Some(name), before) == FirstSuffix(MimeTypes, name, 0)
    ensures (forall j :: 0 <= j < |MimeTypes| ==> !SuffixCI(name, MimeTypes[j].ext)) ==>
              GetMimeType(Some(name), before) == "text/plain"
  {
    forall j | 0 <= j < |MimeTypes|
      ensures |MimeTypes[j].ext| <= |name|
    {
      ExtensionsAreShort(j);
    }
    LongNameScan(MimeTypes, before, name, 0);
    LongNameScan(MimeTypes, other, name, 0);
    FirstSuffixIsFirst(MimeTypes, name, 0);
  }

  /** Two mismatching characters at one place make two strings differ, ignoring case. */
  lemma DifferAt(a: string, b: string, k: nat)
    requires k < |a| && k < |b| && Lower(a[k]) != Lower(b[k])
    ensures !EqualCI(a, b)
  {
  }

  /** Example: an HTML page, whatever precedes its name. */
  lemma HtmlExample(before: string)
    ensures GetMimeType(Some("index.html"), before) == "text/html"
  {
    var n := "index.html";
    assert Window(before, n, 4) == "html";
    DifferAt("html", ".txt", 0);
    assert Window(before, n, 5) == ".html";
    assert Matches(MimeTypes, before, n, 1);
    assert FirstMatch(MimeTypes, before, n, 0) == FirstMatch(MimeTypes, before, n, 1) == 1;
  }

  lemma HtmSkipsFirstEntries(n: string)
    requires n == "INDEX.HTM"
    ensures FirstSuffix(MimeTypes, n, 0) == FirstSuffix(MimeTypes, n, 4)
  {
    assert FirstSuffix(MimeTypes, n, 0) == FirstSuffix(MimeTypes, n, 1) by {
      assert n[|n| - 4..] == ".HTM";
      DifferAt(".HTM", ".txt", 1);
    }
    assert FirstSuffix(MimeTypes, n, 1) == FirstSuffix(MimeTypes, n, 2) by {
      assert n[|n| - 5..] == "X.HTM";
      DifferAt("X.HTM", ".html", 0);
    }
    assert FirstSuffix(MimeTypes, n, 2) == FirstSuffix(MimeTypes, n, 3) by {
      assert n[|n| - 6..] == "EX.HTM";
      DifferAt("EX.HTM", ".shtml", 0);
    }
    assert FirstSuffix(MimeTypes, n, 3) == FirstSuffix(MimeTypes, n, 4) by {
      assert n[|n| - 4..] == ".HTM";
      DifferAt(".HTM", ".asp", 1);
    }
  }

  lemma HtmMatchesEntry4(n: string)
    requires n == "INDEX.HTM"
    ensures FirstSuffix(MimeTypes, n, 4) == 4
  {
    assert n[|n| - 4..] == ".HTM";
  }

  /** Example: the extension is matched in any letter case. */
  lemma UpperCaseExample(before: string)
    ensures GetMimeType(Some("INDEX.HTM"), before) == "text/html"
    ensures MimeIndex(Some("INDEX.HTM"), before) == 4
  {
    var n := "INDEX.HTM";
    LongNameLookup(n, before, before);
    HtmSkipsFirstEntries(n);
    HtmMatchesEntry4(n);
  }

  /**
   * A name shorter than an extension makes the scan compare memory that
   * precedes the name: for the name "tml" the entry chosen depends on the
   * bytes before it.
   */
  lemma ShortNameReadsBeforeIt()
    ensures MimeIndex(Some("tml"), ".sh") == 2
    ensures GetMimeType(Some("tml"), ".sh") == "text/html"
    ensures MimeIndex(Some("tml"), "xsh") != 2
  {
    assert Window(".sh", "tml", 4) == "html";
    assert Window(".sh", "tml", 5) == "shtml";
    assert Window(".sh", "tml", 6) == ".shtml";
    DifferAt("html", ".txt", 0);
    DifferAt("shtml", ".html", 0);
    assert Matches(MimeTypes, ".sh", "tml", 2);
    assert Window("xsh", "tml", 6) == "xshtml";
    DifferAt("xshtml", ".shtml", 0);
  }
}
