/** The two string filters of the crawlers: the clean-up of the link targets
    found in an article, and the line filter over the all-titles dump. Both
    work on already-decoded text; the HTML regex, the URL decoding and the
    download are outside the model. */
module Cleaning {

  /** What the link fetch produced: the decoded link targets of the page, or
      any exception (network, HTTP status, decoding), which the crawler turns
      into an empty list. */
  datatype FetchResult = Fetched(raw: seq<string>) | FetchFailed

  /** The namespace markers whose presence anywhere in a link drops it. */
  const Markers: seq<string> := ["File:", "Category:", "Template:", "Help:", "Special:", "Wikipedia:"]

  predicate OccursAt(s: string, p: string, i: nat) {
    i + |p| <= |s| && s[i..i + |p|] == p
  }

  /** Python's `p in s` on strings: `p` is a substring of `s`. */
  predicate Contains(s: string, p: string) {
    exists i: nat | i <= |s| :: OccursAt(s, p, i)
  }

  predicate IsSpecial(s: string) {
    exists k: nat | k < |Markers| :: Contains(s, Markers[k])
  }

  /** `s.replace('_', ' ')`. */
  function Underscores(s: string): (r: string)
    ensures |r| == |s| && '_' !in r
  {
    seq(|s|, i requires 0 <= i < |s| => if s[i] == '_' then ' ' else s[i])
  }

  /** The `clean_links` list: non-special links in page order, underscores replaced. */
  function CleanLinks(raw: seq<string>): seq<string> {
    if raw == [] then []
    else
      var last := raw[|raw| - 1];
      CleanLinks(raw[..|raw| - 1]) + (if IsSpecial(last) then [] else [Underscores(last)])
  }

  ghost predicate NoDuplicates<T>(s: seq<T>) {
    forall i, j :: 0 <= i < j < |s| ==> s[i] != s[j]
  }

  /** `list(set(s))`. Python leaves the order of the result unspecified; this
      keeps first occurrences, and nothing downstream depends on the order. */
  function Dedup(s: seq<string>): (r: seq<string>)
    ensures forall x :: x in r <==> x in s
    ensures NoDuplicates(r)
  {
    if s == [] then []
    else
      var d := Dedup(s[..|s| - 1]);
      var last := s[|s| - 1];
      if last in d then d else d + [last]
  }

  /** What `get_article_links` returns for a fetch outcome. */
  function ArticleLinks(response: FetchResult): seq<string> {
    match response
    case FetchFailed => []
    case Fetched(raw) => Dedup(CleanLinks(raw))
  }

  /** A link is kept exactly when it is not special, and then with underscores replaced. */
  lemma {:induction false} CleanLinksMembers(raw: seq<string>, x: string)
    ensures x in CleanLinks(raw) <==> exists s :: s in raw && !IsSpecial(s) && Underscores(s) == x
  {
    if raw != [] {
      var init, last := raw[..|raw| - 1], raw[|raw| - 1];
      assert raw == init + [last];
      CleanLinksMembers(init, x);
      if x in CleanLinks(raw) && x !in CleanLinks(init) {
        assert !IsSpecial(last) && Underscores(last) == x;
      }
      if exists s :: s in raw && !IsSpecial(s) && Underscores(s) == x {
        var s :| s in raw && !IsSpecial(s) && Underscores(s) == x;
        if s !in init {
          assert s == last;
        }
      }
    }
  }

  /** Replacing underscores by spaces cannot create a pattern that holds no space. */
  lemma UnderscoresKeepAbsent(s: string, p: string)
    requires ' ' !in p
    ensures Contains(Underscores(s), p) ==> Contains(s, p)
  {
    if Contains(Underscores(s), p) {
      var u := Underscores(s);
      var i: nat :| i <= |u| && OccursAt(u, p, i);
      forall j | 0 <= j < |p| ensures s[i + j] == p[j] {
        assert u[i..i + |p|][j] == p[j];
        assert p[j] in p;
      }
      assert s[i..i + |p|] == p;
      assert OccursAt(s, p, i);
    }
  }

  lemma MarkersHoldNoSpace()
    ensures forall k :: 0 <= k < |Markers| ==> ' ' !in Markers[k]
  {
    assert Markers[0] == "File:";
    assert Markers[1] == "Category:";
    assert Markers[2] == "Template:";
    assert Markers[3] == "Help:";
    assert Markers[4] == "Special:";
    assert Markers[5] == "Wikipedia:";
  }

  /** The links the crawler stores for a page: no duplicates, no underscore, no
      namespace marker anywhere, every non-special link of the page present in
      cleaned form and nothing else; a failed fetch yields none. */
  lemma ArticleLinksSpec(response: FetchResult)
    ensures NoDuplicates(ArticleLinks(response))
    ensures forall x :: x in ArticleLinks(response) ==> '_' !in x && !IsSpecial(x)
    ensures response.FetchFailed? ==> ArticleLinks(response) == []
    ensures response.Fetched? ==> forall x :: x in ArticleLinks(response) <==>
      exists s :: s in response.raw && !IsSpecial(s) && Underscores(s) == x
  {
    if response.Fetched? {
      forall x | x in ArticleLinks(response)
        ensures '_' !in x && !IsSpecial(x)
        ensures exists s :: s in response.raw && !IsSpecial(s) && Underscores(s) == x
      {
        CleanLinksMembers(response.raw, x);
        var s :| s in response.raw && !IsSpecial(s) && Underscores(s) == x;
        MarkersHoldNoSpace();
        forall k: nat | k < |Markers| ensures !Contains(x, Markers[k]) {
          UnderscoresKeepAbsent(s, Markers[k]);
        }
      }
      forall x | exists s :: s in response.raw && !IsSpecial(s) && Underscores(s) == x
        ensures x in ArticleLinks(response)
      {
        CleanLinksMembers(response.raw, x);
      }
    }
  }

  /** `get_article_links` after the fetch: the cleaning loop, then `list(set(...))`. */
  method GetArticleLinks(response: FetchResult) returns (links: seq<string>)
    ensures links == ArticleLinks(response)
  {
    if response.FetchFailed? {
      return [];
    }
    var raw := response.raw;
    var clean: seq<string> := [];
    var i := 0;
    while i < |raw|
      invariant 0 <= i <= |raw|
      invariant clean == CleanLinks(raw[..i])
    {
      assert raw[..i + 1][..i] == raw[..i];
      if !IsSpecial(raw[i]) {
        clean := clean + [Underscores(raw[i])];
      }
      i := i + 1;
    }
    assert raw[..i] == raw;
    links := Dedup(clean);
  }

  /** Python's `str.isspace()`: the characters `str.strip()` removes. */
  predicate IsSpace(c: char) {
    var n := c as int;
    || n == 0x20 || 0x09 <= n <= 0x0D || 0x1C <= n <= 0x1F || n == 0x85 || n == 0xA0
    || n == 0x1680 || 0x2000 <= n <= 0x200A || n == 0x2028 || n == 0x2029
    || n == 0x202F || n == 0x205F || n == 0x3000
  }

  /** `lstrip()`. */
  function TrimStart(s: string): string {
    if s != [] && IsSpace(s[0]) then TrimStart(s[1..]) else s
  }

  /** `rstrip()`. */
  function TrimEnd(s: string): string {
    if s != [] && IsSpace(s[|s| - 1]) then TrimEnd(s[..|s| - 1]) else s
  }

  /** `line.strip()`. */
  function Strip(s: string): string {
    TrimEnd(TrimStart(s))
  }

  /** `lstrip()` drops exactly the leading whitespace. */
  lemma {:induction false} TrimStartSpec(s: string)
    ensures var r := TrimStart(s);
      && |r| <= |s| && r == s[|s| - |r|..]
      && (forall i :: 0 <= i < |s| - |r| ==> IsSpace(s[i]))
      && (r == [] || !IsSpace(r[0]))
  {
    if s != [] && IsSpace(s[0]) {
      TrimStartSpec(s[1..]);
    }
  }

  /** `rstrip()` drops exactly the trailing whitespace. */
  lemma {:induction false} TrimEndSpec(s: string)
    ensures var r := TrimEnd(s);
      && |r| <= |s| && r == s[..|r|]
      && (forall i :: |r| <= i < |s| ==> IsSpace(s[i]))
      && (r == [] || !IsSpace(r[|r| - 1]))
  {
    if s != [] && IsSpace(s[|s| - 1]) {
      TrimEndSpec(s[..|s| - 1]);
    }
  }

  /** `strip()` keeps the middle part of the line between whitespace-only
      ends, and that part neither starts nor ends with whitespace. */
  lemma StripSpec(s: string)
    ensures exists i, j :: (0 <= i <= j <= |s| && Strip(s) == s[i..j] &&
      (forall k :: 0 <= k < i ==> IsSpace(s[k])) && (forall k :: j <= k < |s| ==> IsSpace(s[k])))
    ensures Strip(s) == [] || (!IsSpace(Strip(s)[0]) && !IsSpace(Strip(s)[|Strip(s)| - 1]))
  {
    var t := TrimStart(s);
    var r := TrimEnd(t);
    TrimStartSpec(s);
    TrimEndSpec(t);
    assert r == s[|s| - |t|..|s| - |t| + |r|];
  }

  /** A dump line's contribution to the title list. */
  function DumpTitle(line: string): seq<string> {
    var title := Strip(line);
    if title != [] && title[0] != '#' then [Underscores(title)] else []
  }

  /** The title list `get_all_titles` builds from the dump's lines. */
  function DumpTitles(lines: seq<string>): seq<string> {
    if lines == [] then [] else DumpTitles(lines[..|lines| - 1]) + DumpTitle(lines[|lines| - 1])
  }

  /** The filter works line by line and keeps the order of the lines. */
  lemma {:induction false} DumpTitlesAppend(a: seq<string>, b: seq<string>)
    ensures DumpTitles(a + b) == DumpTitles(a) + DumpTitles(b)
  {
    if b == [] {
      assert a + b == a;
    } else {
      var b' := b[..|b| - 1];
      assert (a + b)[..|a + b| - 1] == a + b';
      DumpTitlesAppend(a, b');
    }
  }

  /** A line contributes its stripped text, underscores replaced, exactly when
      that text is non-empty and does not start with '#'; no kept title is
      empty, starts with '#' or holds an underscore. */
  lemma {:induction false} DumpTitlesSpec(lines: seq<string>)
    ensures |DumpTitles(lines)| <= |lines|
    ensures forall t :: t in DumpTitles(lines) ==> t != [] && t[0] != '#' && '_' !in t
    ensures forall l :: l in lines && Strip(l) != [] && Strip(l)[0] != '#' ==>
      Underscores(Strip(l)) in DumpTitles(lines)
    ensures forall t :: t in DumpTitles(lines) ==> exists l :: l in lines && Underscores(Strip(l)) == t
  {
    if lines != [] {
      var init, last := lines[..|lines| - 1], lines[|lines| - 1];
      assert lines == init + [last];
      DumpTitlesSpec(init);
    }
  }

  /** The reading loop of `get_all_titles`, over lines already decompressed. */
  method GetAllTitles(lines: seq<string>) returns (titles: seq<string>)
    ensures titles == DumpTitles(lines)
  {
    titles := [];
    var i := 0;
    while i < |lines|
      invariant 0 <= i <= |lines|
      invariant titles == DumpTitles(lines[..i])
    {
      assert lines[..i + 1][..i] == lines[..i];
      var title := Strip(lines[i]);
      if title != [] && title[0] != '#' {
        titles := titles + [Underscores(title)];
      }
      i := i + 1;
    }
    assert lines[..i] == lines;
  }
}
