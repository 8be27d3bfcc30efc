/**
 * getData/W3Crawling.py: the same loops as the course crawlers, but code
 * snippets are fingerprinted on their first 50 characters and the menu keeps
 * `#` and `javascript:` links.
 */
module W3Crawling {
  import opened Sequences
  import opened PyText
  import opened Extractors

  const FingerprintWidth: int := 50

  /** `extract_code_snippets(doc)` of this file. */
  method ExtractCodeSnippets(bySelector: seq<seq<string>>) returns (snippets: seq<string>)
    ensures snippets == StripEach(CodeTexts(bySelector, FingerprintWidth))
  {
    snippets := Extractors.ExtractCodeSnippets(bySelector, FingerprintWidth);
  }

  /** `extract_menu_links(doc, base_url)` of this file: no link is skipped for its `href` form. */
  method ExtractMenuLinks(anchors: seq<Anchor>, baseUrl: string, urlJoin: (string, string) -> string)
    returns (links: seq<Link>)
    ensures links == MenuLinks(anchors, baseUrl, urlJoin, false)
    ensures forall i, j :: 0 <= i < j < |links| ==> links[i].url != links[j].url
    ensures forall i :: (0 <= i < |anchors| && anchors[i].href.Some? && anchors[i].href.value != []
                         && Strip(anchors[i].text) != []) ==>
      exists link :: link in links && link.url == urlJoin(baseUrl, anchors[i].href.value)
  {
    links := Extractors.ExtractMenuLinks(anchors, baseUrl, urlJoin, false);
    MenuLinksFacts(anchors, baseUrl, urlJoin, false);
  }
}
