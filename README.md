# C4AI-Testing retrieval fusion and crawler helpers, in Dafny

This project models two parts of the C4AI-Testing repository and proves what they promise.

**The RAG-fusion chain** (`RAG/ragFusion.py`) answers a question in four steps:

1. It parses the language model's text into at most four queries.
2. It asks the retriever for one ranked list of documents per query. A query whose retrieval raises is skipped.
3. It merges the lists with Reciprocal Rank Fusion. A document scores the sum of `1/(rank + k)` over every place it occurs, with `k = 5`. The entries are sorted by descending score.
4. It joins the page contents of the best `top_k` documents with blank lines into one context string.

The model has:
- `GenerateQuery`, a function for the parsing.
- `ReciprocalRankFusion`, a method with the source's nested loops over a score map and a key order. It is proved equal to the specification function `Fused`.
- `RagFusionChain`, a method with the retrieval loop.

The language model's text and the retriever are inputs. Scores are exact reals.

**The course crawler helpers** (`getData/allCoursesW3schoolsCrawling.py`, repeated in `getData/oneCoursesW3schoolsCrawling.py` and `getData/W3Crawling.py`) turn a fetched page into course data:
- `sanitize_filename` and `clean_word` normalise names and glossary terms. They are functions in module `Cleaning`.
- The extractors collect menu links, code snippets, a description, a summary, objectives and a glossary. The menu, snippet, description, summary and glossary extractors are methods in module `Extractors`, each with the source's loop, its `seen` set and its early `break`. The two `extract_objectives` loops are in modules `AllCourses` and `SingleCourse`; the function `Objectives` they are proved equal to is in `Extractors`. The menu, snippet, description, summary and objectives methods are each proved equal to a specification function, and the source's promises are proved as lemmas about that function. The glossary method is specified by the properties of its result instead: strictly ascending, the `min(400, n)` smallest cleaned words.
- A page selection is given as the sequence of texts of the matched elements, in document order.
- The three files differ in four places. The code-fingerprint width (80 or 50 characters) and whether the menu skips `#` and `javascript:` links are parameters of the shared extractors. `extract_objectives` breaks out of its loop in `getData/allCoursesW3schoolsCrawling.py` and returns from inside it in `getData/oneCoursesW3schoolsCrawling.py`; each form is its own method. `sanitize_filename` ends in an `if not n` block in the first file and in `n.strip("_") or "course"` in the second; the two behave the same and are modelled once.
- Module `AllCourses` holds the `extract_objectives` loop of `getData/allCoursesW3schoolsCrawling.py`, its fingerprint width 80, and its entry points for the code-snippet and menu extractors.
- Module `SingleCourse` holds only the early-return `extract_objectives` of `getData/oneCoursesW3schoolsCrawling.py`.
- Module `W3Crawling` holds the fingerprint width 50 of `getData/W3Crawling.py` and its entry points for the code-snippet and menu extractors. That file has no `extract_objectives`.
- The description, summary and glossary extractors have no per-file entry point: the methods in `Extractors` model them for every file that has them.

Module `Sequences` holds the list idioms: slicing, flattening, filter-map, and "first element per key", which is the `seen`-set loop. Module `PyText` holds the Python `str` operations the core relies on: `strip`, `lower`, `splitlines`, `join`, `split()`, the three `re.sub` shapes (delete a character class, replace a character class by a space, collapse whitespace runs) and string ordering.

## Model

| member | source | states |
|---|---|---|
| RagFusion.GenerateQuery | RAG/ragFusion.py:45-50 | at most `num_query` queries, each non-empty and stripped, and exactly the first `min(num_query, n)` of the stripped non-blank lines |
| RagFusion.GenerateQueryRoundTrip | RAG/ragFusion.py:49-50 | queries written one per line are parsed back unchanged |
| RagFusion.BackendErrorBecomesQuery | LLM.py:38-39 | a backend failure reaches the parser as the warning text, which becomes the one query |
| RagFusion.RecipFacts | RAG/ragFusion.py:83 | `1/(rank + k)` is positive and strictly decreasing in the rank |
| RagFusion.RankScoreNonNegative | RAG/ragFusion.py:80-83 | what one list adds to a score is never negative |
| RagFusion.ScoreAbsent | RAG/ragFusion.py:79-83 | a document that occurs in no list scores 0 |
| RagFusion.RankScoreSplit | RAG/ragFusion.py:80-83 | in the second part of a list, ranks are offset by the length of the first part |
| RagFusion.ScoreConcat | RAG/ragFusion.py:79-83 | the score over two groups of lists is the sum of the two scores |
| RagFusion.ScoreCommutes | RAG/ragFusion.py:79-83 | the score does not depend on the order of the lists |
| RagFusion.ScoreInsertOccurrence | RAG/ragFusion.py:82-83 | one more occurrence of a document, at any rank of any list, strictly raises its score |
| RagFusion.ScoreAppendList | RAG/ragFusion.py:79-83 | one more ranked list never lowers a score |
| RagFusion.InsertPerm | RAG/ragFusion.py:86 | an insertion step keeps every entry, each as often as before |
| RagFusion.InsertSorted | RAG/ragFusion.py:86 | inserting into a descending list keeps it descending |
| RagFusion.InsertStable | RAG/ragFusion.py:86 | an inserted entry goes before the entries of equal score |
| RagFusion.InsertDistinct | RAG/ragFusion.py:86 | inserting a new document keeps documents distinct |
| RagFusion.SortByScorePerm | RAG/ragFusion.py:86 | the sort is a permutation of its input |
| RagFusion.SortByScoreSorted | RAG/ragFusion.py:86 | the sort yields non-increasing scores |
| RagFusion.SortByScoreStable | RAG/ragFusion.py:86 | for every score value, the entries with that score keep their input order (`list.sort` is stable, also with `reverse=True`) |
| RagFusion.SortByScoreDistinct | RAG/ragFusion.py:86 | the sort keeps documents distinct |
| RagFusion.TallyFacts | RAG/ragFusion.py:78-85 | the dictionary holds each input document once, and only input documents |
| RagFusion.FusedFacts | RAG/ragFusion.py:78-87 | each input document appears exactly once with its RRF score; nothing else appears; scores are non-increasing; ties are in first-seen order |
| RagFusion.RankScoreStep | RAG/ragFusion.py:80-83 | one inner-loop step adds `1/(rank + k)` to the score of the document at that rank |
| RagFusion.AddRankedList | RAG/ragFusion.py:80-83 | the inner loop over one ranked list turns the dictionary tallied over `lists` (keys in first-seen order, each with its RRF score) into the one tallied over `lists + [results]` |
| RagFusion.AddToScore | RAG/ragFusion.py:82-83 | `setdefault` then `+=`: the document gains `w` over its old score or 0, a new key is appended to the key order, and no other entry changes |
| RagFusion.TalliedStart | RAG/ragFusion.py:79-80 | before the inner loop, the dictionary is the tally over the lists read so far with nothing of the current list read |
| RagFusion.ScoreUpdateStep | RAG/ragFusion.py:80-83 | one inner-loop step keeps the dictionary equal to the tally over the lists read so far plus the current list's prefix up to and including this rank |
| RagFusion.ScoreAppendStep | RAG/ragFusion.py:79-83 | after the inner loop, the dictionary is the tally over one more list |
| RagFusion.InsertMember | RAG/ragFusion.py:86 | an entry is in the result of an insertion exactly when it is the inserted entry or was already there |
| RagFusion.FusedEntry | RAG/ragFusion.py:85-86 | an entry is in the fused list exactly when it is in the dictionary's items, and it carries the document's RRF score |
| RagFusion.FusedDocs | RAG/ragFusion.py:78-86 | the fused list's documents are exactly the documents of the input lists |
| RagFusion.ReciprocalRankFusion | RAG/ragFusion.py:70-87 | the nested loops and the sort compute `Fused(ranked_lists, k)` |
| RagFusion.SurvivorsConcat | RAG/ragFusion.py:106-113 | the retrieval loop over two runs of queries is the two loops one after the other |
| RagFusion.SurvivorsCount | RAG/ragFusion.py:106-113 | each query yields one ranked list unless its retrieval raised |
| RagFusion.FailedQueryContributesNothing | RAG/ragFusion.py:108-112 | a query whose retrieval raises leaves the ranked lists as if it were absent |
| RagFusion.ContextPrefix | RAG/ragFusion.py:118-119 | a smaller `top_k` gives a prefix of the context |
| RagFusion.ContextSize | RAG/ragFusion.py:118-119 | the context joins exactly `min(top_k, len(fused))` contents, and a `top_k` past the end joins them all |
| RagFusion.NothingRetrievedEmptyContext | RAG/ragFusion.py:106-119 | when every retrieval raises or returns nothing, the context is empty |
| RagFusion.NoDocuments | RAG/ragFusion.py:106-113 | when every retrieval raises or returns nothing, the ranked lists hold no document |
| RagFusion.RagFusionChain | RAG/ragFusion.py:90-125 | the queries are the parsed output; the context is the top-`top_k` join of the fusion (k = 5) of the surviving lists, in query order; a failure before retrieval gives `("", [])` |
| RagFusion.RankFormulaExamples | RAG/ragFusion.py:72-83 | with k = 5, one hit at rank 0 scores 1/5 and two such hits score 2/5 |
| RagFusion.SmallListFacts | RAG/ragFusion.py:79-81 | the dictionary's key order on two-document inputs, a repeated document keeping its first place |
| RagFusion.SmallListScores | RAG/ragFusion.py:80-83 | with k = 5, the per-list scores of two-document lists: 1/5 at rank 0, 1/6 at rank 1, 0 when absent |
| RagFusion.FusedTieExample | RAG/ragFusion.py:85-86 | two documents tied at 1/5 stay in first-seen order |
| RagFusion.FusedRepeatExample | RAG/ragFusion.py:79-86 | a document found by two queries (1/6 + 1/5) moves ahead of one found once at rank 0 |
| RagFusion.TieTally | RAG/ragFusion.py:78-85 | the dictionary's items for two lists that each find a different document at rank 0: both score 1/5, in first-seen order |
| RagFusion.RepeatTally | RAG/ragFusion.py:78-85 | the dictionary's items when one document is found at rank 0 of the first list and another at rank 1 of the first and rank 0 of the second: 1/5, then 1/6 + 1/5 = 11/30, in first-seen order |
| Sequences.FirstPerKeyStep | getData/allCoursesW3schoolsCrawling.py:104-107 | a `seen`-set step keeps the element exactly when its key is new, and records the key |
| Sequences.FirstPerKeyDistinct | getData/allCoursesW3schoolsCrawling.py:104-107 | the kept elements have pairwise different keys, one per key seen |
| Sequences.FirstPerKeyCovers | getData/allCoursesW3schoolsCrawling.py:104-107 | every element that passes the filter shares its key with some kept element |
| Sequences.CollectMember | getData/allCoursesW3schoolsCrawling.py:154-162 | a value is collected exactly when some element yields it |
| PyText.StripByFacts | getData/allCoursesW3schoolsCrawling.py:54 | `strip(chars)` yields a slice with no stripped character at either end, and is empty exactly for an all-stripped string |
| PyText.SubSpaceRunsSingle | getData/allCoursesW3schoolsCrawling.py:70 | after `re.sub(r"\s+", " ", w)` no two whitespace characters are adjacent |
| PyText.SplitLinesOfJoin | RAG/ragFusion.py:49 | `splitlines` undoes a `"\n"`-join of lines without line breaks |
| PyText.StrLessTotal | getData/allCoursesW3schoolsCrawling.py:164 | Python's string order is total on distinct strings |
| PyText.StrLessTransitive | getData/allCoursesW3schoolsCrawling.py:164 | Python's string order is transitive |
| Cleaning.SanitizeFilename | getData/allCoursesW3schoolsCrawling.py:49-57 | the result is a non-empty `[a-z0-9_-]` name with no `_` at either end |
| Cleaning.FallbackName | getData/allCoursesW3schoolsCrawling.py:55-56 | the fallback `"course"` is itself a valid file name |
| Cleaning.SanitizeFilenameIdempotent | getData/allCoursesW3schoolsCrawling.py:49-57 | sanitising a sanitised name changes nothing |
| Cleaning.FileNameIsFixed | getData/allCoursesW3schoolsCrawling.py:51-54 | every valid file name is its own sanitised form |
| Cleaning.SanitizeFallback | getData/oneCoursesW3schoolsCrawling.py:40-44 | a name made only of underscores, punctuation and whitespace (no letter, digit or `-`) falls back to `"course"` |
| Cleaning.CleanWord | getData/allCoursesW3schoolsCrawling.py:60-89 | `None` exactly for empty text or a normalised form that a filter rejects; otherwise the normal form, 2–50 characters, at most two tokens, not a bad term, no stop or junk token, with a letter |
| Cleaning.NormalizeWordFacts | getData/allCoursesW3schoolsCrawling.py:67-70 | the normalised text is stripped, has single spaces only, and uses only `a-z0-9+#.-` and space |
| Cleaning.NormalizeNormalWord | getData/allCoursesW3schoolsCrawling.py:67-70 | normalising a normal word changes nothing |
| Cleaning.CleanWordIdempotent | getData/oneCoursesW3schoolsCrawling.py:46-65 | cleaning a cleaned word gives it back |
| Cleaning.CleanWordRejectsNormalForm | getData/allCoursesW3schoolsCrawling.py:65-89 | a rejected text's normal form is rejected too |
| Extractors.ExtractCodeSnippets | getData/allCoursesW3schoolsCrawling.py:111-123 | the snippets are the stripped first non-blank texts per fingerprint, over all selectors in order; each is stripped and non-empty, and the kept texts have pairwise distinct `(len, first width chars)` fingerprints |
| Extractors.AddSnippets | getData/allCoursesW3schoolsCrawling.py:114-122 | the loop over one selector's elements extends the kept texts, the `seen` set and the snippets to one more selector |
| Extractors.SnippetStep | getData/allCoursesW3schoolsCrawling.py:116-122 | one element: a blank text or a seen fingerprint changes nothing; otherwise the fingerprint is recorded and the stripped text appended |
| Extractors.StrippedCode | getData/allCoursesW3schoolsCrawling.py:117-122 | stripping non-blank texts gives stripped, non-empty snippets |
| Extractors.StripEachPointwise | getData/allCoursesW3schoolsCrawling.py:122 | a list stripped element by element is the list of stripped texts |
| Extractors.CodeSnippetsFacts | getData/oneCoursesW3schoolsCrawling.py:103-115 | the snippets are stripped and non-empty; kept texts have distinct fingerprints; every non-blank text shares its fingerprint with a kept one; there is one snippet per fingerprint |
| Extractors.Candidate | getData/allCoursesW3schoolsCrawling.py:96-103 | an anchor offers a link only with a non-empty `href` and text (and, when skipping, not a `#`/`javascript:` href); the link is the stripped text and the joined URL |
| Extractors.ExtractMenuLinks | getData/allCoursesW3schoolsCrawling.py:93-108 | the links are the first candidate per absolute URL, in menu order |
| Extractors.MenuStep | getData/allCoursesW3schoolsCrawling.py:96-107 | one anchor: an ineligible anchor or a seen URL changes nothing; otherwise the URL is recorded and the link appended |
| Extractors.MenuLinksFacts | getData/oneCoursesW3schoolsCrawling.py:67-81 | URLs are pairwise distinct; each link comes from an eligible anchor; every eligible anchor's URL is listed |
| Extractors.SkippingOnlyRemoves | getData/W3Crawling.py:71-82 | every URL the skipping menu lists is also listed by the variant that keeps `#` and `javascript:` links |
| Extractors.DescriptionCut | getData/allCoursesW3schoolsCrawling.py:130-135 | the loop stops right after the first paragraph that takes the joined text past 900 characters, or at the end |
| Extractors.ExtractDescription | getData/allCoursesW3schoolsCrawling.py:126-136 | the loop with its `break` computes the first 1000 characters of the join up to the cut |
| Extractors.JoinedUpToPrefix | getData/allCoursesW3schoolsCrawling.py:130-134 | reading more paragraphs only extends the joined text |
| Extractors.DescriptionFacts | getData/W3Crawling.py:56-68 | at most 1000 characters; a prefix of the whole join; the whole join when it has at most 900 characters, and more than 900 characters otherwise |
| Extractors.ExtractSummary | getData/allCoursesW3schoolsCrawling.py:139-147 | the summary is the `"\n"`-join of the stripped non-blank texts, in order |
| Extractors.SummaryLines | getData/W3Crawling.py:43-53 | when no text spans lines, splitting the summary into lines gives back the stripped non-blank texts |
| Extractors.StrippedNonBlankOrigin | getData/oneCoursesW3schoolsCrawling.py:94-101 | every summary part is the stripped form of some element text |
| Extractors.RichIndex | getData/allCoursesW3schoolsCrawling.py:191-195 | the chosen list is the first with at least two non-blank items |
| Extractors.ObjectivesFacts | getData/allCoursesW3schoolsCrawling.py:191-201 | at most 10 stripped non-empty items: a prefix of the first rich list, with at least 2 items; otherwise at most 5, a prefix of all non-blank items |
| AllCourses.ExtractObjectives | getData/allCoursesW3schoolsCrawling.py:181-201 | the loop with `break`, the fallback and the final cut compute `Objectives` |
| SingleCourse.ExtractObjectives | getData/oneCoursesW3schoolsCrawling.py:117-123 | the loop with early return computes `Objectives` |
| AllCourses.ExtractMenuLinks | getData/allCoursesW3schoolsCrawling.py:101-102 | no listed URL comes from a `#` or `javascript:` href, and the URLs are distinct |
| W3Crawling.ExtractCodeSnippets | getData/W3Crawling.py:28-40 | the snippets are the stripped first non-blank texts per `(len, first 50 chars)` fingerprint; the guarantees of `Extractors.ExtractCodeSnippets` apply with width 50 |
| W3Crawling.ExtractMenuLinks | getData/W3Crawling.py:71-82 | every anchor with a non-empty `href` and text has its URL listed, `#` links included; URLs are distinct |
| Extractors.Smallest | getData/allCoursesW3schoolsCrawling.py:164 | the word chosen is below every other word of the set |
| Extractors.SortWords | getData/allCoursesW3schoolsCrawling.py:164 | `sorted(raw)` is strictly ascending and holds exactly the words of the set |
| Extractors.ExtractGlossary | getData/allCoursesW3schoolsCrawling.py:150-165 | strictly ascending; `min(400, len(raw))` words, all from `raw`, and they are the smallest ones |
| Extractors.RawGlossaryWords | getData/oneCoursesW3schoolsCrawling.py:125-136 | every glossary word is a `clean_word` result of a heading, emphasis, code text or menu title |
| RagFusion.RankScore | RAG/ragFusion.py:80-83 | defines what one ranked list adds to a document's score: `1/(rank + k)` for each rank where the document occurs |
| RagFusion.Score | RAG/ragFusion.py:79-83 | defines the RRF score: the sum of `RankScore` over every list |
| RagFusion.FirstSeen | RAG/ragFusion.py:79-82 | defines the dictionary's key order: the distinct documents in first-seen order over all lists |
| RagFusion.Tally | RAG/ragFusion.py:78-85 | defines the dictionary's items: each first-seen document with its `Score` |
| RagFusion.Insert | RAG/ragFusion.py:86 | defines one insertion step: the entry goes before the first entry whose score is not higher |
| RagFusion.SortByScore | RAG/ragFusion.py:86 | defines `sort(key=score, reverse=True)` as a stable insertion sort by descending score |
| RagFusion.Fused | RAG/ragFusion.py:70-87 | defines `reciprocal_rank_fusion`'s result: the sorted tally |
| RagFusion.Survivors | RAG/ragFusion.py:106-113 | defines the ranked lists: one per query whose retrieval did not raise, in query order |
| RagFusion.Failures | RAG/ragFusion.py:111-112 | defines the number of queries whose retrieval raised |
| RagFusion.ContextOf | RAG/ragFusion.py:118-119 | defines the context: the `"\n\n"`-join of the page contents of the first `top_k` fused entries |
| Cleaning.NormalizeWord | getData/allCoursesW3schoolsCrawling.py:67-70 | defines `clean_word`'s normal form: stripped, lowered, other characters turned into spaces, whitespace runs collapsed, stripped again |
| Cleaning.PassesFilters | getData/allCoursesW3schoolsCrawling.py:72-89 | defines `clean_word`'s filters: length 2–50, at most two tokens, not a bad term, no stop or junk token, a letter a–z |
| Extractors.CodeTexts | getData/allCoursesW3schoolsCrawling.py:113-121 | defines the texts `extract_code_snippets` keeps: the first non-blank text per fingerprint, over all selectors in order |
| Extractors.MenuLinks | getData/allCoursesW3schoolsCrawling.py:95-108 | defines `extract_menu_links`'s result: the first candidate link per absolute URL |
| Extractors.Description | getData/allCoursesW3schoolsCrawling.py:129-136 | defines `extract_description`'s result: the first 1000 characters of the join up to the cut |
| Extractors.Objectives | getData/allCoursesW3schoolsCrawling.py:188-201 | defines `extract_objectives`'s result: the first 10 items of the first rich list, else the first 5 non-blank items |
| Extractors.RawGlossary | getData/allCoursesW3schoolsCrawling.py:152-162 | defines the `raw` set: the `clean_word` results of the element texts and menu titles |
| Extractors.AscendingDistinct | getData/allCoursesW3schoolsCrawling.py:164-165 | a strictly ascending word list holds no word twice |
| AllCourses.ExtractCodeSnippets | getData/allCoursesW3schoolsCrawling.py:111-123 | the snippets are the stripped first non-blank texts per `(len, first 80 chars)` fingerprint; the guarantees of `Extractors.ExtractCodeSnippets` apply with width 80 |
| PyText.Strip | getData/allCoursesW3schoolsCrawling.py:51 | defines `str.strip()`: trims Python's whitespace characters from both ends |
| PyText.SubSpaceRuns | getData/allCoursesW3schoolsCrawling.py:53 | defines `re.sub(r"\s+", rep, s)`: each maximal whitespace run becomes one `rep` |
| PyText.SplitLines | RAG/ragFusion.py:49 | defines `str.splitlines()`, with `"\r\n"` as one boundary and no piece after a final boundary |
| PyText.Words | getData/allCoursesW3schoolsCrawling.py:75 | defines `str.split()`: the maximal runs of non-whitespace characters |
| PyText.StrLessIrreflexive | getData/allCoursesW3schoolsCrawling.py:164 | no string is below itself in Python's string order |
| Sequences.Take | RAG/ragFusion.py:50 | Python's `s[:n]`: a prefix of `min(n, len(s))` elements for `n >= 0`, and the tail-dropping form for negative `n` |
| Sequences.FirstPerKey | getData/allCoursesW3schoolsCrawling.py:104-107 | defines the `seen`-set loop's result: the elements that pass the filter and whose key was not seen before, in order |

## Left out

- `app.py` (the Streamlit interface), `RAG/RAG.py` (retriever construction and the file write) and `RAG/embedding.py` (vector store and splitters) are library glue. They are not part of this model.
- `LLM.run_llm` streams from a network service. The model takes its text as the input of `RagFusionChain`. `generate_query` calls it twice, and the first generator is never consumed, so one call is modelled. A backend failure arrives as warning text (`BackendErrorBecomesQuery`).
- `generate_hyde_document` is unused and is not modelled.
- The async crawl drivers, the JSON and file writes, the logging, and the unused first `extract_objectives` of `getData/allCoursesW3schoolsCrawling.py` (shadowed by the second) are not modelled.
- Page selection (`#main`, `.w3-main`, `body`, `#leftmenuinner a`, the tag selectors) is not modelled. Each extractor receives the texts of the elements a selection matched. A missing `href` is `None`, and a missing text is `""`.
- `urljoin` is a function parameter with no properties assumed. The retriever is a function from a query to a ranked list or a failure, so it is deterministic in the model.
- Document identity: `dumps(doc)` keys are modelled by the documents themselves, compared as values.
- ReciprocalRankFusion: scores are exact reals, not IEEE doubles. Float rounding could reorder near-ties.
- ReciprocalRankFusion: requires `k > 0`. With `k <= 0` the source divides by zero or counts negative weights. The chain always passes 5.
- Extractors.SortWords: `sorted()` is modelled as selection of the smallest remaining word. Only its result is claimed, not its algorithm.
- RagFusion.SortByScore: the library sort is modelled as an insertion sort with the same stability. Only its result is claimed.
- Cleaning.SanitizeFilename: `\w` and `str.lower` are modelled on ASCII only. Python also keeps non-ASCII letters and digits and lower-cases them. For such names the model drops them, so the `[a-z0-9_-]` guarantee holds for the model, not for Python on non-ASCII input.
- Cleaning.CleanWord: `str.lower` is ASCII-only. Non-ASCII capitals that Python lowers into ASCII (the Kelvin sign to `k`) are replaced by a space instead.
- Extractors.Candidate: `href.lower()` is ASCII-only, which affects only the `javascript:` test on non-ASCII hrefs.
- The crawler copies in `getData/oneCoursesW3schoolsCrawling.py` of `clean_word`, `extract_menu_links`, `extract_description`, `extract_summary`, `extract_code_snippets` and `extract_glossary` are the same code as in `getData/allCoursesW3schoolsCrawling.py`. Its `sanitize_filename` is written differently (`n.strip("_") or "course"` instead of an `if` block) but behaves the same. They are modelled once, and their lines are cited on the lemma rows above. Likewise `extract_summary` and `extract_description` of `getData/W3Crawling.py`.
- Errors raised after retrieval are not modelled. In the source, an exception from `dumps`, `loads` or `doc.page_content` inside the outer `try` is caught and the chain returns `("", [])`. In the model documents are typed values with a content field, so these cannot fail, and `RagFusionChain` returns `("", [])` only for `GenerationFailed`.
