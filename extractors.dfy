/**
 * The page extractors of the course crawlers (getData/allCoursesW3schoolsCrawling.py,
 * with the same code repeated in getData/oneCoursesW3schoolsCrawling.py and
 * getData/W3Crawling.py). Each works on what the page's selectors matched,
 * given as the sequence of element texts in document order; the selection
 * itself is not modelled. Where the copies differ (the fingerprint width of
 * `extract_code_snippets`, whether `extract_menu_links` skips in-page and
 * script links) the difference is a parameter.
 */
module Extractors {
  import opened Sequences
  import opened PyText
  import opened Cleaning

  // ------------------------------------------------------ extract_code_snippets

  /** `text.strip()` is not empty. */
  predicate IsCode(t: string)
  {
    Strip(t) != []
  }

  /** `(len(text), text[:width])`: two snippets with the same fingerprint count as one. */
  function FingerprintOf(width: int): string -> (int, string)
  {
    t => (|t|, Take(t, width))
  }

  /** `[t.strip() for t in texts]`. */
  function StripEach(texts: seq<string>): (r: seq<string>)
    ensures |r| == |texts|
  {
    if texts == [] then [] else StripEach(texts[..|texts| - 1]) + [Strip(texts[|texts| - 1])]
  }

  lemma StripEachAppend(texts: seq<string>, t: string)
    ensures StripEach(texts + [t]) == StripEach(texts) + [Strip(t)]
  {
    assert (texts + [t])[..|texts|] == texts;
  }

  lemma {:induction false} StripEachFacts(texts: seq<string>)
    ensures forall j :: 0 <= j < |texts| ==> StripEach(texts)[j] == Strip(texts[j])
  {
    if texts != [] {
      StripEachFacts(texts[..|texts| - 1]);
    }
  }

  lemma {:induction false} StripEachPointwise(texts: seq<string>, stripped: seq<string>)
    requires |stripped| == |texts| && forall j :: 0 <= j < |texts| ==> stripped[j] == Strip(texts[j])
    ensures stripped == StripEach(texts)
  {
    if texts != [] {
      StripEachPointwise(texts[..|texts| - 1], stripped[..|texts| - 1]);
      assert stripped == stripped[..|texts| - 1] + [stripped[|texts| - 1]];
    }
  }

  lemma {:induction false} StripEachMember(texts: seq<string>, s: string)
    requires s in StripEach(texts)
    ensures exists t :: t in texts && s == Strip(t)
  {
    var init, last := texts[..|texts| - 1], texts[|texts| - 1];
    assert last in texts;
    if s in StripEach(init) {
      StripEachMember(init, s);
      assert forall t :: t in init ==> t in texts;
    }
  }

  /** The texts `extract_code_snippets` keeps: the first non-blank text of each fingerprint, over all selectors in order. */
  function CodeTexts(bySelector: seq<seq<string>>, width: int): seq<string>
  {
    FirstPerKey(Flatten(bySelector), IsCode, FingerprintOf(width))
  }

  /**
   * `extract_code_snippets(doc)`, where `bySelector[s]` holds the texts of the
   * elements the `s`-th selector matched (a missing text is "").
   */
  method ExtractCodeSnippets(bySelector: seq<seq<string>>, width: int) returns (snippets: seq<string>)
    ensures snippets == StripEach(CodeTexts(bySelector, width))
    ensures forall t :: t in snippets ==> t != [] && IsStripped(t)
    ensures var kept := CodeTexts(bySelector, width);
      forall i, j :: 0 <= i < j < |kept| ==> (|kept[i]|, Take(kept[i], width)) != (|kept[j]|, Take(kept[j], width))
  {
    snippets := [];
    var seen: set<(int, string)> := {};
    ghost var kept: seq<string> := [];
    for s := 0 to |bySelector|
      invariant kept == FirstPerKey(Flatten(bySelector[..s]), IsCode, FingerprintOf(width))
      invariant seen == KeysSeen(Flatten(bySelector[..s]), IsCode, FingerprintOf(width))
      invariant snippets == StripEach(kept)
    {
      snippets, seen, kept := AddSnippets(snippets, seen, kept, Flatten(bySelector[..s]), bySelector[s], FingerprintOf(width));
      assert Flatten(bySelector[..s + 1]) == Flatten(bySelector[..s]) + bySelector[s] by {
        assert bySelector[..s + 1] == bySelector[..s] + [bySelector[s]];
        FlattenAppend(bySelector[..s], bySelector[s]);
      }
    }
    assert bySelector[..|bySelector|] == bySelector;
    CodeSnippetsFacts(bySelector, width);
  }

  /**
   * The inner loop of `extract_code_snippets`: the elements one selector
   * matched, after those of the selectors before it (`done`); `fingerprint`
   * computes the `(len(text), text[:width])` pair.
   */
  method AddSnippets(snippets: seq<string>, seen: set<(int, string)>, ghost kept: seq<string>, ghost done: seq<string>,
                     texts: seq<string>, fingerprint: string -> (int, string))
    returns (snippets': seq<string>, seen': set<(int, string)>, ghost kept': seq<string>)
    requires kept == FirstPerKey(done, IsCode, fingerprint)
    requires seen == KeysSeen(done, IsCode, fingerprint)
    requires snippets == StripEach(kept)
    ensures kept' == FirstPerKey(done + texts, IsCode, fingerprint)
    ensures seen' == KeysSeen(done + texts, IsCode, fingerprint)
    ensures snippets' == StripEach(kept')
  {
    snippets', seen', kept' := snippets, seen, kept;
    assert done + texts[..0] == done;
    for e := 0 to |texts|
      invariant kept' == FirstPerKey(done + texts[..e], IsCode, fingerprint)
      invariant seen' == KeysSeen(done + texts[..e], IsCode, fingerprint)
      invariant snippets' == StripEach(kept')
    {
      var text := texts[e];
      ReadOneMore(done, texts, e);
      SnippetStep(done + texts[..e], text, fingerprint, kept', seen', snippets');
      if Strip(text) == [] {
        continue;
      }
      var fp := fingerprint(text);
      if fp in seen' {
        continue;
      }
      seen' := seen' + {fp};
      snippets' := snippets' + [Strip(text)];
      kept' := kept' + [text];
    }
    assert texts[..|texts|] == texts;
  }

  /** One element of the inner loop: skipped when blank or already seen, kept otherwise. */
  lemma SnippetStep(before: seq<string>, text: string, fingerprint: string -> (int, string),
                    kept: seq<string>, seen: set<(int, string)>, snippets: seq<string>)
    requires kept == FirstPerKey(before, IsCode, fingerprint)
    requires seen == KeysSeen(before, IsCode, fingerprint)
    requires snippets == StripEach(kept)
    ensures Strip(text) == [] ==>
      FirstPerKey(before + [text], IsCode, fingerprint) == kept && KeysSeen(before + [text], IsCode, fingerprint) == seen
    ensures Strip(text) != [] && fingerprint(text) in seen ==>
      FirstPerKey(before + [text], IsCode, fingerprint) == kept && KeysSeen(before + [text], IsCode, fingerprint) == seen
    ensures Strip(text) != [] && fingerprint(text) !in seen ==>
      FirstPerKey(before + [text], IsCode, fingerprint) == kept + [text]
      && KeysSeen(before + [text], IsCode, fingerprint) == seen + {fingerprint(text)}
      && StripEach(kept + [text]) == snippets + [Strip(text)]
  {
    FirstPerKeyStep(before, text, IsCode, fingerprint);
    StripEachAppend(kept, text);
  }

  /**
   * Every snippet is stripped and non-blank; the texts kept have pairwise
   * different fingerprints; every non-blank text shares its fingerprint with
   * a kept one; so there is one snippet per distinct fingerprint.
   */
  lemma CodeSnippetsFacts(bySelector: seq<seq<string>>, width: int)
    ensures forall t :: t in StripEach(CodeTexts(bySelector, width)) ==> t != [] && IsStripped(t)
    ensures var kept := CodeTexts(bySelector, width);
      forall i, j :: 0 <= i < j < |kept| ==> FingerprintOf(width)(kept[i]) != FingerprintOf(width)(kept[j])
    ensures forall t :: t in Flatten(bySelector) && IsCode(t) ==>
      exists u :: u in CodeTexts(bySelector, width) && FingerprintOf(width)(u) == FingerprintOf(width)(t)
    ensures |StripEach(CodeTexts(bySelector, width))| == |KeysSeen(Flatten(bySelector), IsCode, FingerprintOf(width))|
  {
    var flat := Flatten(bySelector);
    var kept := CodeTexts(bySelector, width);
    var key := FingerprintOf(width);
    assert forall t :: t in kept ==> IsCode(t) by {
      FirstPerKeyKeys(flat, IsCode, key);
    }
    StrippedCode(kept);
    FirstPerKeyDistinct(flat, IsCode, key);
    forall t | t in flat && IsCode(t)
      ensures exists u :: u in kept && key(u) == key(t)
    {
      var j :| 0 <= j < |flat| && flat[j] == t;
      FirstPerKeyCovers(flat, IsCode, key, j);
    }
  }

  /** Stripping texts that are not blank gives non-empty stripped texts. */
  lemma StrippedCode(texts: seq<string>)
    requires forall t :: t in texts ==> IsCode(t)
    ensures forall s :: s in StripEach(texts) ==> s != [] && IsStripped(s)
  {
    forall s | s in StripEach(texts) ensures s != [] && IsStripped(s) {
      StripEachMember(texts, s);
      var t :| t in texts && s == Strip(t);
      StripFacts(t);
    }
  }

  // -------------------------------------------------------- extract_menu_links

  /** One `<a>` of the left menu: its `href` attribute, if any, and its text. */
  datatype Anchor = Anchor(href: Option<string>, text: string)

  /** `{"title": ..., "url": ...}`. */
  datatype Link = Link(title: string, url: string)

  /** The in-page and script links the course crawlers skip. */
  predicate IsInPageOrScript(href: string)
  {
    StartsWith(href, "#") || StartsWith(Lower(href), "javascript:")
  }

  /** The link an anchor offers, or `None` when a `continue` before the `seen` test skips it. */
  function Candidate(a: Anchor, baseUrl: string, urlJoin: (string, string) -> string, skipInPage: bool): (r: Option<Link>)
    ensures r.Some? ==> a.href.Some? && a.href.value != [] && !(skipInPage && IsInPageOrScript(a.href.value))
    ensures r.Some? ==> r.value == Link(Strip(a.text), urlJoin(baseUrl, a.href.value)) && r.value.title != []
  {
    if a.href.None? || a.href.value == [] || Strip(a.text) == [] then None
    else if skipInPage && IsInPageOrScript(a.href.value) then None
    else Some(Link(Strip(a.text), urlJoin(baseUrl, a.href.value)))
  }

  function CandidateOf(baseUrl: string, urlJoin: (string, string) -> string, skipInPage: bool): Anchor -> Option<Link>
  {
    a => Candidate(a, baseUrl, urlJoin, skipInPage)
  }

  /** The links that reach the `seen` test, in menu order. */
  function Candidates(anchors: seq<Anchor>, baseUrl: string, urlJoin: (string, string) -> string, skipInPage: bool): seq<Link>
  {
    Collect(anchors, CandidateOf(baseUrl, urlJoin, skipInPage))
  }

  predicate KeepLink(link: Link) { true }
  function LinkUrl(link: Link): string { link.url }

  lemma CandidatesStep(anchors: seq<Anchor>, i: nat, baseUrl: string, urlJoin: (string, string) -> string, skipInPage: bool)
    requires i < |anchors|
    ensures Candidate(anchors[i], baseUrl, urlJoin, skipInPage).None? ==>
      Candidates(anchors[..i + 1], baseUrl, urlJoin, skipInPage) == Candidates(anchors[..i], baseUrl, urlJoin, skipInPage)
    ensures Candidate(anchors[i], baseUrl, urlJoin, skipInPage).Some? ==>
      Candidates(anchors[..i + 1], baseUrl, urlJoin, skipInPage)
      == Candidates(anchors[..i], baseUrl, urlJoin, skipInPage) + [Candidate(anchors[i], baseUrl, urlJoin, skipInPage).value]
  {
    CollectStep(anchors, i, CandidateOf(baseUrl, urlJoin, skipInPage));
    var before := Candidates(anchors[..i], baseUrl, urlJoin, skipInPage);
    assert before + [] == before;
  }

  /** What `extract_menu_links` returns: the first link per absolute URL. */
  function MenuLinks(anchors: seq<Anchor>, baseUrl: string, urlJoin: (string, string) -> string, skipInPage: bool): seq<Link>
  {
    FirstPerKey(Candidates(anchors, baseUrl, urlJoin, skipInPage), KeepLink, LinkUrl)
  }

  /**
   * `extract_menu_links(doc, base_url)`: `urljoin` is the parameter `urlJoin`;
   * `skipInPage` says whether this copy skips `#` and `javascript:` links.
   */
  method ExtractMenuLinks(anchors: seq<Anchor>, baseUrl: string, urlJoin: (string, string) -> string, skipInPage: bool)
    returns (links: seq<Link>)
    ensures links == MenuLinks(anchors, baseUrl, urlJoin, skipInPage)
  {
    links := [];
    var seen: set<string> := {};
    for i := 0 to |anchors|
      invariant links == FirstPerKey(Candidates(anchors[..i], baseUrl, urlJoin, skipInPage), KeepLink, LinkUrl)
      invariant seen == KeysSeen(Candidates(anchors[..i], baseUrl, urlJoin, skipInPage), KeepLink, LinkUrl)
    {
      var a := anchors[i];
      ghost var c := Candidate(a, baseUrl, urlJoin, skipInPage);
      MenuStep(anchors, i, baseUrl, urlJoin, skipInPage, links, seen);
      var text := Strip(a.text);
      if a.href.None? || a.href.value == [] || text == [] {
        assert c == None;
        continue;
      }
      var href := a.href.value;
      if skipInPage && (StartsWith(href, "#") || StartsWith(Lower(href), "javascript:")) {
        assert c == None;
        continue;
      }
      var full := urlJoin(baseUrl, href);
      var link := Link(text, full);
      assert c == Some(link);
      if full in seen {
        continue;
      }
      seen := seen + {full};
      links := links + [link];
    }
    assert anchors[..|anchors|] == anchors;
  }

  /** One anchor of the loop: no candidate or an already seen URL changes nothing, a new URL is appended. */
  lemma MenuStep(anchors: seq<Anchor>, i: nat, baseUrl: string, urlJoin: (string, string) -> string, skipInPage: bool,
                 links: seq<Link>, seen: set<string>)
    requires i < |anchors|
    requires links == FirstPerKey(Candidates(anchors[..i], baseUrl, urlJoin, skipInPage), KeepLink, LinkUrl)
    requires seen == KeysSeen(Candidates(anchors[..i], baseUrl, urlJoin, skipInPage), KeepLink, LinkUrl)
    ensures var c := Candidate(anchors[i], baseUrl, urlJoin, skipInPage);
      c.None? || c.value.url in seen ==>
        FirstPerKey(Candidates(anchors[..i + 1], baseUrl, urlJoin, skipInPage), KeepLink, LinkUrl) == links
        && KeysSeen(Candidates(anchors[..i + 1], baseUrl, urlJoin, skipInPage), KeepLink, LinkUrl) == seen
    ensures var c := Candidate(anchors[i], baseUrl, urlJoin, skipInPage);
      c.Some? && c.value.url !in seen ==>
        FirstPerKey(Candidates(anchors[..i + 1], baseUrl, urlJoin, skipInPage), KeepLink, LinkUrl) == links + [c.value]
        && KeysSeen(Candidates(anchors[..i + 1], baseUrl, urlJoin, skipInPage), KeepLink, LinkUrl) == seen + {c.value.url}
  {
    CandidatesStep(anchors, i, baseUrl, urlJoin, skipInPage);
    var c := Candidate(anchors[i], baseUrl, urlJoin, skipInPage);
    if c.Some? {
      FirstPerKeyStep(Candidates(anchors[..i], baseUrl, urlJoin, skipInPage), c.value, KeepLink, LinkUrl);
    }
  }

  /**
   * The links have pairwise different URLs; each comes from an anchor with a
   * non-empty href and text (and, when skipping, not an in-page or script
   * link); and the URL of every such anchor is among them.
   */
  lemma MenuLinksFacts(anchors: seq<Anchor>, baseUrl: string, urlJoin: (string, string) -> string, skipInPage: bool)
    ensures var links := MenuLinks(anchors, baseUrl, urlJoin, skipInPage);
      forall i, j :: 0 <= i < j < |links| ==> links[i].url != links[j].url
    ensures forall link :: link in MenuLinks(anchors, baseUrl, urlJoin, skipInPage) ==>
      exists i :: 0 <= i < |anchors| && Candidate(anchors[i], baseUrl, urlJoin, skipInPage) == Some(link)
    ensures forall i :: 0 <= i < |anchors| && Candidate(anchors[i], baseUrl, urlJoin, skipInPage).Some? ==>
      exists link :: (link in MenuLinks(anchors, baseUrl, urlJoin, skipInPage)
        && link.url == Candidate(anchors[i], baseUrl, urlJoin, skipInPage).value.url)
  {
    var cands := Candidates(anchors, baseUrl, urlJoin, skipInPage);
    var f := CandidateOf(baseUrl, urlJoin, skipInPage);
    FirstPerKeyDistinct(cands, KeepLink, LinkUrl);
    forall link | link in MenuLinks(anchors, baseUrl, urlJoin, skipInPage)
      ensures exists i :: 0 <= i < |anchors| && Candidate(anchors[i], baseUrl, urlJoin, skipInPage) == Some(link)
    {
      assert link in cands by {
        FirstPerKeySubset(cands, KeepLink, LinkUrl);
      }
      CollectMember(anchors, f, link);
      var i :| 0 <= i < |anchors| && f(anchors[i]) == Some(link);
    }
    forall i | 0 <= i < |anchors| && Candidate(anchors[i], baseUrl, urlJoin, skipInPage).Some?
      ensures exists link :: (link in MenuLinks(anchors, baseUrl, urlJoin, skipInPage)
        && link.url == Candidate(anchors[i], baseUrl, urlJoin, skipInPage).value.url)
    {
      var c := Candidate(anchors[i], baseUrl, urlJoin, skipInPage).value;
      assert f(anchors[i]) == Some(c);
      CollectMember(anchors, f, c);
      var j :| 0 <= j < |cands| && cands[j] == c;
      FirstPerKeyCovers(cands, KeepLink, LinkUrl, j);
    }
  }

  /**
   * Skipping in-page and script links only removes links: every URL the
   * skipping menu lists is also listed by the menu that keeps them.
   */
  lemma SkippingOnlyRemoves(anchors: seq<Anchor>, baseUrl: string, urlJoin: (string, string) -> string)
    ensures forall link :: link in MenuLinks(anchors, baseUrl, urlJoin, true) ==>
      exists other :: other in MenuLinks(anchors, baseUrl, urlJoin, false) && other.url == link.url
  {
    MenuLinksFacts(anchors, baseUrl, urlJoin, true);
    MenuLinksFacts(anchors, baseUrl, urlJoin, false);
    forall link | link in MenuLinks(anchors, baseUrl, urlJoin, true)
      ensures exists other :: other in MenuLinks(anchors, baseUrl, urlJoin, false) && other.url == link.url
    {
      var i :| 0 <= i < |anchors| && Candidate(anchors[i], baseUrl, urlJoin, true) == Some(link);
      assert Candidate(anchors[i], baseUrl, urlJoin, false) == Some(link);
    }
  }

  // ------------------------------------------------------- extract_description

  const DescriptionStop: int := 900
  const DescriptionLimit: int := 1000

  /** `" ".join(parts)` after the first `n` paragraphs. */
  function JoinedUpTo(paragraphs: seq<string>, n: nat): string
    requires n <= |paragraphs|
  {
    Join(StrippedNonBlank(paragraphs[..n]), " ")
  }

  lemma StrippedNonBlankStep(texts: seq<string>, i: nat)
    requires i < |texts|
    ensures StrippedNonBlank(texts[..i + 1])
         == StrippedNonBlank(texts[..i]) + (if Strip(texts[i]) == [] then [] else [Strip(texts[i])])
  {
    assert texts[..i + 1][..i] == texts[..i];
  }

  /**
   * How many paragraphs the loop reads when it has read `n` without stopping:
   * it stops after the first one that takes the joined text past 900
   * characters, or at the end.
   */
  function DescriptionCut(paragraphs: seq<string>, n: nat): (c: nat)
    requires n <= |paragraphs|
    ensures n <= c <= |paragraphs|
    ensures n < |paragraphs| ==> n < c
    ensures n < c ==> c == |paragraphs| || |JoinedUpTo(paragraphs, c)| > DescriptionStop
    ensures forall m :: n < m < c ==> |JoinedUpTo(paragraphs, m)| <= DescriptionStop
    decreases |paragraphs| - n
  {
    if n == |paragraphs| then n
    else if |JoinedUpTo(paragraphs, n + 1)| > DescriptionStop then n + 1
    else DescriptionCut(paragraphs, n + 1)
  }

  /** What `extract_description` returns. */
  function Description(paragraphs: seq<string>): string
  {
    Take(JoinedUpTo(paragraphs, DescriptionCut(paragraphs, 0)), DescriptionLimit)
  }

  /** `extract_description(doc)`, where `paragraphs` are the texts of the `<p>` elements of the main area. */
  method ExtractDescription(paragraphs: seq<string>) returns (description: string)
    ensures description == Description(paragraphs)
  {
    var parts: seq<string> := [];
    var i := 0;
    while i < |paragraphs|
      invariant 0 <= i <= |paragraphs|
      invariant parts == StrippedNonBlank(paragraphs[..i])
      invariant DescriptionCut(paragraphs, i) == DescriptionCut(paragraphs, 0)
    {
      var t := Strip(paragraphs[i]);
      if t != [] {
        parts := parts + [t];
      }
      StrippedNonBlankStep(paragraphs, i);
      ghost var read := i;
      i := i + 1;
      assert parts == StrippedNonBlank(paragraphs[..i]);
      assert Join(parts, " ") == JoinedUpTo(paragraphs, i);
      if |Join(parts, " ")| > DescriptionStop {
        assert DescriptionCut(paragraphs, read) == i;
        break;
      }
      assert DescriptionCut(paragraphs, read) == DescriptionCut(paragraphs, i);
    }
    assert DescriptionCut(paragraphs, 0) == i;
    description := Take(Join(parts, " "), DescriptionLimit);
  }

  /** Reading more paragraphs only extends the joined text. */
  lemma JoinedUpToPrefix(paragraphs: seq<string>, m: nat, n: nat)
    requires m <= n <= |paragraphs|
    ensures JoinedUpTo(paragraphs, m) <= JoinedUpTo(paragraphs, n)
  {
    var a := StrippedNonBlank(paragraphs[..m]);
    assert paragraphs[..n] == paragraphs[..m] + paragraphs[m..n];
    StrippedNonBlankConcat(paragraphs[..m], paragraphs[m..n]);
    var b := StrippedNonBlank(paragraphs[..n]);
    assert b[..|a|] == a;
    JoinPrefix(b, " ", |a|);
  }

  /**
   * The description has at most 1000 characters and is a prefix of the
   * space-join of all stripped non-blank paragraphs; it is that whole join
   * when the join has at most 900 characters, and longer than 900 characters
   * otherwise.
   */
  lemma DescriptionFacts(paragraphs: seq<string>)
    ensures |Description(paragraphs)| <= DescriptionLimit
    ensures Description(paragraphs) <= Join(StrippedNonBlank(paragraphs), " ")
    ensures |Join(StrippedNonBlank(paragraphs), " ")| <= DescriptionStop ==>
      Description(paragraphs) == Join(StrippedNonBlank(paragraphs), " ")
    ensures |Join(StrippedNonBlank(paragraphs), " ")| > DescriptionStop ==> |Description(paragraphs)| > DescriptionStop
  {
    var c := DescriptionCut(paragraphs, 0);
    var full := Join(StrippedNonBlank(paragraphs), " ");
    assert paragraphs[..|paragraphs|] == paragraphs;
    assert JoinedUpTo(paragraphs, |paragraphs|) == full;
    JoinedUpToPrefix(paragraphs, c, |paragraphs|);
    var j := JoinedUpTo(paragraphs, c);
    var d := Description(paragraphs);
    assert d == j[..|d|];
    assert j == full[..|j|];
    assert d == full[..|d|];
  }

  // ----------------------------------------------------------- extract_summary

  /** `extract_summary(doc)`, where `texts` are the texts of the h2, h3, p and li elements of the main area. */
  method ExtractSummary(texts: seq<string>) returns (summary: string)
    ensures summary == Join(StrippedNonBlank(texts), "\n")
  {
    var parts: seq<string> := [];
    for i := 0 to |texts|
      invariant parts == StrippedNonBlank(texts[..i])
    {
      var t := Strip(texts[i]);
      if t != [] {
        parts := parts + [t];
      }
      StrippedNonBlankStep(texts, i);
    }
    assert texts[..|texts|] == texts;
    summary := Join(parts, "\n");
  }

  /** When no element text spans lines, the summary has one line per non-blank element, stripped, in order. */
  lemma SummaryLines(texts: seq<string>)
    requires forall t :: t in texts ==> !HasLineBreak(t)
    ensures SplitLines(Join(StrippedNonBlank(texts), "\n")) == StrippedNonBlank(texts)
  {
    var parts := StrippedNonBlank(texts);
    StrippedNonBlankFacts(texts);
    forall l | l in parts ensures l != [] && !HasLineBreak(l) {
      StrippedNonBlankOrigin(texts, l);
      var t :| t in texts && l == Strip(t);
      StripByChars(t, IsSpace);
      forall i | 0 <= i < |l| ensures !IsLineBreak(l[i]) {
        assert l[i] in t;
      }
    }
    SplitLinesOfJoin(parts);
  }

  lemma {:induction false} StrippedNonBlankOrigin(texts: seq<string>, l: string)
    requires l in StrippedNonBlank(texts)
    ensures exists t :: t in texts && l == Strip(t)
  {
    var init, last := texts[..|texts| - 1], texts[|texts| - 1];
    assert last in texts;
    if l in StrippedNonBlank(init) {
      StrippedNonBlankOrigin(init, l);
      assert forall t :: t in init ==> t in texts;
    }
  }

  // ------------------------------------------------------- extract_objectives

  /** Index of the first `<ul>` from `n` on with at least two non-blank items, or `|lists|`. */
  function RichIndex(lists: seq<seq<string>>, n: nat): (i: nat)
    requires n <= |lists|
    ensures n <= i <= |lists|
    ensures i < |lists| ==> |StrippedNonBlank(lists[i])| >= 2
    ensures forall j :: n <= j < i ==> |StrippedNonBlank(lists[j])| < 2
    decreases |lists| - n
  {
    if n == |lists| then n
    else if |StrippedNonBlank(lists[n])| >= 2 then n
    else RichIndex(lists, n + 1)
  }

  const ObjectivesLimit: int := 10
  const FallbackLimit: int := 5

  /**
   * What both copies of `extract_objectives` return: the first ten items of the
   * first list with at least two non-blank items, else the first five
   * non-blank items of the whole main area.
   */
  function Objectives(lists: seq<seq<string>>, allItems: seq<string>): seq<string>
  {
    var i := RichIndex(lists, 0);
    if i < |lists| then Take(StrippedNonBlank(lists[i]), ObjectivesLimit)
    else Take(StrippedNonBlank(allItems), FallbackLimit)
  }

  lemma ObjectivesFacts(lists: seq<seq<string>>, allItems: seq<string>)
    ensures |Objectives(lists, allItems)| <= ObjectivesLimit
    ensures forall t :: t in Objectives(lists, allItems) ==> t != [] && IsStripped(t)
    ensures RichIndex(lists, 0) == |lists| ==>
      |Objectives(lists, allItems)| <= FallbackLimit && Objectives(lists, allItems) <= StrippedNonBlank(allItems)
    ensures RichIndex(lists, 0) < |lists| ==>
      2 <= |Objectives(lists, allItems)| && Objectives(lists, allItems) <= StrippedNonBlank(lists[RichIndex(lists, 0)])
  {
    var i := RichIndex(lists, 0);
    var items := if i < |lists| then lists[i] else allItems;
    var s := StrippedNonBlank(items);
    StrippedNonBlankFacts(items);
    var o := Objectives(lists, allItems);
    assert o == s[..|o|];
    assert forall t :: t in o ==> t in s;
  }

  // --------------------------------------------------------- extract_glossary

  /** The words `clean_word` accepts among `texts`, in order. */
  function CleanedWords(texts: seq<string>): seq<string>
  {
    Collect(texts, CleanWord)
  }

  function Titles(links: seq<Link>): seq<string>
  {
    seq(|links|, i requires 0 <= i < |links| => links[i].title)
  }

  /** The `raw` set of `extract_glossary`. */
  function RawGlossary(texts: seq<string>, menuLinks: seq<Link>): set<string>
  {
    set w | w in CleanedWords(texts) + CleanedWords(Titles(menuLinks))
  }

  predicate Ascending(s: seq<string>)
  {
    forall i, j :: 0 <= i < j < |s| ==> StrLess(s[i], s[j])
  }

  /** A strictly ascending list holds no word twice. */
  lemma AscendingDistinct(s: seq<string>)
    requires Ascending(s)
    ensures forall i, j :: 0 <= i < j < |s| ==> s[i] != s[j]
  {
    forall i, j | 0 <= i < j < |s| ensures s[i] != s[j] {
      if s[i] == s[j] {
        StrLessIrreflexive(s[i]);
      }
    }
  }

  /** The smallest word of a non-empty set. */
  method Smallest(words: set<string>) returns (m: string)
    requires words != {}
    ensures m in words && forall w :: w in words && w != m ==> StrLess(m, w)
  {
    m :| m in words;
    var todo := words - {m};
    while todo != {}
      invariant todo <= words && m in words && m !in todo
      invariant forall w :: w in words && w !in todo && w != m ==> StrLess(m, w)
      decreases |todo|
    {
      var x :| x in todo;
      if StrLess(x, m) {
        forall w | w in words && w !in todo && w != x ensures StrLess(x, w) {
          if w != m {
            StrLessTransitive(x, m, w);
          }
        }
        m := x;
      } else {
        StrLessTotal(x, m);
      }
      todo := todo - {x};
    }
  }

  /** `sorted(raw)`: the words of the set in ascending order. */
  method SortWords(raw: set<string>) returns (sorted: seq<string>)
    ensures Ascending(sorted)
    ensures forall w :: w in sorted <==> w in raw
    ensures |sorted| == |raw|
  {
    sorted := [];
    var rest := raw;
    while rest != {}
      invariant rest <= raw
      invariant forall w :: w in sorted <==> w in raw && w !in rest
      invariant |sorted| + |rest| == |raw|
      invariant Ascending(sorted)
      invariant forall a, b :: a in sorted && b in rest ==> StrLess(a, b)
      decreases |rest|
    {
      var m := Smallest(rest);
      forall b | b in rest - {m} ensures StrLess(m, b) {}
      sorted := sorted + [m];
      rest := rest - {m};
    }
  }

  const GlossaryLimit: int := 400

  /**
   * `extract_glossary(doc, menu_links)`, where `texts` are the texts of the
   * h1, h2, h3, strong, b and code elements: the 400 smallest distinct
   * cleaned words, in ascending order.
   */
  method ExtractGlossary(texts: seq<string>, menuLinks: seq<Link>) returns (glossary: seq<string>)
    ensures Ascending(glossary)
    ensures forall i, j :: 0 <= i < j < |glossary| ==> glossary[i] != glossary[j]
    ensures |glossary| == Min(GlossaryLimit, |RawGlossary(texts, menuLinks)|)
    ensures forall w :: w in glossary ==> w in RawGlossary(texts, menuLinks)
    ensures forall w, v :: w in glossary && v in RawGlossary(texts, menuLinks) && v !in glossary ==> StrLess(w, v)
  {
    var raw: set<string> := {};
    for i := 0 to |texts|
      invariant forall w :: w in raw <==> w in CleanedWords(texts[..i])
    {
      CollectStep(texts, i, CleanWord);
      var w := CleanWord(texts[i]);
      if w.Some? {
        raw := raw + {w.value};
      }
    }
    assert texts[..|texts|] == texts;
    var titles := Titles(menuLinks);
    for j := 0 to |menuLinks|
      invariant forall w :: w in raw <==> w in CleanedWords(texts) + CleanedWords(titles[..j])
    {
      CollectStep(titles, j, CleanWord);
      var w := CleanWord(menuLinks[j].title);
      if w.Some? {
        raw := raw + {w.value};
      }
    }
    assert titles[..|menuLinks|] == titles;
    assert raw == RawGlossary(texts, menuLinks);
    var sorted := SortWords(raw);
    glossary := Take(sorted, GlossaryLimit);
    forall w, v | w in glossary && v in raw && v !in glossary ensures StrLess(w, v) {
      var i :| 0 <= i < |glossary| && glossary[i] == w;
      var j :| 0 <= j < |sorted| && sorted[j] == v;
      assert forall k :: 0 <= k < |glossary| ==> glossary[k] == sorted[k];
      assert j >= |glossary|;
    }
    AscendingDistinct(glossary);
  }

  /** Every glossary word is what `clean_word` made of some heading, emphasis, code or menu title. */
  lemma RawGlossaryWords(texts: seq<string>, menuLinks: seq<Link>, w: string)
    requires w in RawGlossary(texts, menuLinks)
    ensures IsNormalWord(w) && PassesFilters(w)
    ensures exists t :: (t in texts || t in Titles(menuLinks)) && CleanWord(t) == Some(w)
  {
    CollectMember(texts, CleanWord, w);
    CollectMember(Titles(menuLinks), CleanWord, w);
    if w in CleanedWords(texts) {
      var i :| 0 <= i < |texts| && CleanWord(texts[i]) == Some(w);
      assert texts[i] in texts;
    } else {
      var i :| 0 <= i < |Titles(menuLinks)| && CleanWord(Titles(menuLinks)[i]) == Some(w);
      assert Titles(menuLinks)[i] in Titles(menuLinks);
    }
  }
}
