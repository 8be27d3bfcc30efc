/**
 * getData/allCoursesW3schoolsCrawling.py: the effective (second)
 * `extract_objectives`, a loop over the `<ul>` elements of the main area that
 * stops at the first one with at least two non-blank items, then a fallback
 * and a final cut to ten items. The other helpers of this file are the shared
 * ones of Cleaning and Extractors (code fingerprints on 80 characters), with
 * in-page and script links skipped by the menu.
 */
module AllCourses {
  import opened Sequences
  import opened PyText
  import opened Extractors

  const FingerprintWidth: int := 80

  /** `extract_code_snippets(doc)` of this file. */
  method ExtractCodeSnippets(bySelector: seq<seq<string>>) returns (snippets: seq<string>)
    ensures snippets == StripEach(CodeTexts(bySelector, FingerprintWidth))
  {
    snippets := Extractors.ExtractCodeSnippets(bySelector, FingerprintWidth);
  }

  /**
   * `extract_objectives(doc)`, where `lists[k]` holds the `<li>` texts of the
   * `k`-th `<ul>` of the main area and `allItems` the texts of all its `<li>`.
   */
  method ExtractObjectives(lists: seq<seq<string>>, allItems: seq<string>) returns (result: seq<string>)
    ensures result == Objectives(lists, allItems)
  {
    var objectives: seq<string> := [];
    var i := 0;
    while i < |lists|
      invariant 0 <= i <= |lists|
      invariant RichIndex(lists, i) == RichIndex(lists, 0)
      invariant objectives == []
    {
      var lis := StrippedNonBlank(lists[i]);
      if |lis| >= 2 {
        objectives := lis;
        break;
      }
      i := i + 1;
    }
    if objectives == [] {
      objectives := Take(StrippedNonBlank(allItems), FallbackLimit);
    }
    result := Take(objectives, ObjectivesLimit);
  }

  /** `extract_menu_links(doc, base_url)` of this file: `#` and `javascript:` links are skipped. */
  method ExtractMenuLinks(anchors: seq<Anchor>, baseUrl: string, urlJoin: (string, string) -> string)
    returns (links: seq<Link>)
    ensures links == MenuLinks(anchors, baseUrl, urlJoin, true)
    ensures forall i, j :: 0 <= i < j < |links| ==> links[i].url != links[j].url
    ensures forall link :: link in links ==>
      exists i :: (0 <= i < |anchors| && anchors[i].href.Some? && !IsInPageOrScript(anchors[i].href.value)
                   && link.url == urlJoin(baseUrl, anchors[i].href.value))
  {
    links := Extractors.ExtractMenuLinks(anchors, baseUrl, urlJoin, true);
    MenuLinksFacts(anchors, baseUrl, urlJoin, true);
  }
}
