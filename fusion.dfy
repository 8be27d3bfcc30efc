/**
 * The retrieval fusion chain of RAG/ragFusion.py: parse the language model's
 * text into queries, retrieve one ranked list per query (skipping queries whose
 * retrieval raises), merge the lists with Reciprocal Rank Fusion, and join the
 * page contents of the best `top_k` documents into one context string.
 *
 * The language model's output and the retriever are inputs: `Generation` is
 * what the query-generation step hands back, and the retriever is a function
 * from a query to its outcome. Scores are exact reals rather than floats.
 */
module RagFusion {
  import opened Sequences
  import opened PyText

  const NumQuery: int := 4
  /** The damping constant `k` of `reciprocal_rank_fusion`'s default argument. */
  const DefaultK: nat := 5

  /** A retrieved document; two documents are the same for fusion exactly when they are equal values. */
  datatype Document = Document(pageContent: string, metadata: seq<(string, string)>)

  /** One call of `retriever.invoke(q)`: its ranked list, or an exception. */
  datatype Retrieval = Returned(docs: seq<Document>) | RetrievalFailed

  /** The text the query-generation step produced, or an exception raised before retrieval starts. */
  datatype Generation = Generated(output: string) | GenerationFailed

  // ---------------------------------------------------------------- queries

  /** `generate_query`'s parsing: the stripped non-blank lines of the model's text, cut to `numQuery`. */
  function GenerateQuery(output: string, numQuery: int): (queries: seq<string>)
    ensures 0 <= numQuery ==> |queries| <= numQuery
    ensures forall q :: q in queries ==> q != [] && IsStripped(q)
    ensures queries <= StrippedNonBlank(SplitLines(output))
    ensures 0 <= numQuery ==> |queries| == Min(numQuery, |StrippedNonBlank(SplitLines(output))|)
  {
    var lines := StrippedNonBlank(SplitLines(output));
    var r := Take(lines, numQuery);
    assert forall q :: q in r ==> q != [] && IsStripped(q) by {
      StrippedNonBlankFacts(SplitLines(output));
      forall q | q in r ensures q in lines {
        var i :| 0 <= i < |r| && r[i] == q;
        assert lines[i] == q;
      }
    }
    r
  }

  /** Queries written one per line are read back as they were. */
  lemma GenerateQueryRoundTrip(queries: seq<string>)
    requires forall q :: q in queries ==> q != [] && IsStripped(q) && !HasLineBreak(q)
    ensures GenerateQuery(Join(queries, "\n"), |queries|) == queries
  {
    SplitLinesOfJoin(queries);
    StrippedNonBlankOfClean(queries);
  }

  /** What `LLM.run_llm` yields, instead of raising, when the backend call fails. */
  function LlmErrorText(detail: string): string
  {
    LlmErrorPrefix + detail
  }

  const LlmErrorPrefix: string := "\U{26A0}\U{FE0F} Error generating response: "

  /**
   * Because `LLM.run_llm` reports a backend failure as text, query generation
   * never fails on it: the error message itself becomes the one query.
   */
  lemma BackendErrorBecomesQuery(detail: string)
    requires !HasLineBreak(detail)
    ensures GenerateQuery(LlmErrorText(detail), NumQuery) == [Strip(LlmErrorText(detail))]
  {
    var s := LlmErrorText(detail);
    assert !HasLineBreak(s) by {
      forall i | 0 <= i < |s| ensures !IsLineBreak(s[i]) {
        if i >= |LlmErrorPrefix| {
          assert s[i] == detail[i - |LlmErrorPrefix|];
        } else {
          assert s[i] == LlmErrorPrefix[i];
        }
      }
    }
    LineEndAt(s, |s|);
    assert SplitLines(s) == [s];
    StripFacts(s);
    assert !IsSpace(s[0]);
    assert StrippedNonBlank([s]) == [Strip(s)];
  }

  // ----------------------------------------------------------------- scores

  function Recip(n: nat): real
    requires n > 0
  {
    1.0 / n as real
  }

  lemma RecipFacts(n: nat)
    requires n > 0
    ensures 0.0 < Recip(n + 1) < Recip(n)
  {
  }

  /** What the occurrences of `d` in one ranked list add to its score, ranks counted from `offset`. */
  function RankScore<D(==)>(list: seq<D>, d: D, k: nat, offset: nat): real
    requires k > 0
  {
    if list == [] then 0.0
    else RankScore(list[..|list| - 1], d, k, offset)
         + (if list[|list| - 1] == d then Recip(offset + |list| - 1 + k) else 0.0)
  }

  /** The Reciprocal Rank Fusion score of `d`: the sum of 1/(rank + k) over every list and rank where it occurs. */
  function Score<D(==)>(lists: seq<seq<D>>, d: D, k: nat): real
    requires k > 0
  {
    if lists == [] then 0.0
    else Score(lists[..|lists| - 1], d, k) + RankScore(lists[|lists| - 1], d, k, 0)
  }

  lemma {:induction false} RankScoreNonNegative<D>(list: seq<D>, d: D, k: nat, offset: nat)
    requires k > 0
    ensures RankScore(list, d, k, offset) >= 0.0
  {
    if list != [] {
      RankScoreNonNegative(list[..|list| - 1], d, k, offset);
      RecipFacts(offset + |list| - 1 + k);
    }
  }

  lemma {:induction false} RankScoreAbsent<D>(list: seq<D>, d: D, k: nat, offset: nat)
    requires k > 0 && d !in list
    ensures RankScore(list, d, k, offset) == 0.0
  {
    if list != [] {
      assert forall x :: x in list[..|list| - 1] ==> x in list;
      RankScoreAbsent(list[..|list| - 1], d, k, offset);
    }
  }

  lemma {:induction false} ScoreAbsent<D>(lists: seq<seq<D>>, d: D, k: nat)
    requires k > 0 && d !in Flatten(lists)
    ensures Score(lists, d, k) == 0.0
  {
    if lists != [] {
      var init := lists[..|lists| - 1];
      assert lists == init + [lists[|lists| - 1]];
      FlattenAppend(init, lists[|lists| - 1]);
      ScoreAbsent(init, d, k);
      RankScoreAbsent(lists[|lists| - 1], d, k, 0);
    }
  }

  /** Ranks in the second half of a list are offset by the length of the first. */
  lemma {:induction false} RankScoreSplit<D>(a: seq<D>, b: seq<D>, d: D, k: nat, offset: nat)
    requires k > 0
    ensures RankScore(a + b, d, k, offset) == RankScore(a, d, k, offset) + RankScore(b, d, k, offset + |a|)
    decreases |b|
  {
    if b == [] {
      assert a + b == a;
    } else {
      var b0 := b[..|b| - 1];
      assert (a + b)[..|a + b| - 1] == a + b0;
      RankScoreSplit(a, b0, d, k, offset);
    }
  }

  /** Moving a list one rank down loses at most the difference between its first and one-past-last weights. */
  lemma {:induction false} RankScoreShift<D>(b: seq<D>, d: D, k: nat, p: nat)
    requires k > 0
    ensures RankScore(b, d, k, p) - RankScore(b, d, k, p + 1) <= Recip(p + k) - Recip(p + |b| + k)
  {
    if b != [] {
      var b0 := b[..|b| - 1];
      RankScoreShift(b0, d, k, p);
      RecipFacts(p + |b0| + k);
    }
  }

  lemma {:induction false} ScoreConcat<D>(a: seq<seq<D>>, b: seq<seq<D>>, d: D, k: nat)
    requires k > 0
    ensures Score(a + b, d, k) == Score(a, d, k) + Score(b, d, k)
    decreases |b|
  {
    if b == [] {
      assert a + b == a;
    } else {
      var b0 := b[..|b| - 1];
      assert (a + b)[..|a + b| - 1] == a + b0;
      ScoreConcat(a, b0, d, k);
    }
  }

  /** The score does not depend on the order in which the lists are fused. */
  lemma ScoreCommutes<D>(a: seq<seq<D>>, b: seq<seq<D>>, d: D, k: nat)
    requires k > 0
    ensures Score(a + b, d, k) == Score(b + a, d, k)
  {
    ScoreConcat(a, b, d, k);
    ScoreConcat(b, a, d, k);
  }

  /** One more occurrence of `d`, at any rank of any list, strictly raises its score. */
  lemma ScoreInsertOccurrence<D>(lists: seq<seq<D>>, d: D, k: nat, i: nat, p: nat)
    requires k > 0 && i < |lists| && p <= |lists[i]|
    ensures Score(lists[i := lists[i][..p] + [d] + lists[i][p..]], d, k) > Score(lists, d, k)
  {
    var l := lists[i];
    var a, b := l[..p], l[p..];
    var l' := a + [d] + b;
    assert l == a + b;
    RankScoreSplit(a, b, d, k, 0);
    RankScoreSplit(a + [d], b, d, k, 0);
    RankScoreSplit(a, [d], d, k, 0);
    assert RankScore([d], d, k, p) == Recip(p + k);
    RankScoreShift(b, d, k, p);
    RecipFacts(p + |b| + k);
    assert RankScore(l', d, k, 0) > RankScore(l, d, k, 0);
    var lists' := lists[i := l'];
    var pre, post := lists[..i], lists[i + 1..];
    assert lists == pre + [l] + post;
    assert lists' == pre + [l'] + post;
    ScoreConcat(pre + [l], post, d, k);
    ScoreConcat(pre, [l], d, k);
    ScoreConcat(pre + [l'], post, d, k);
    ScoreConcat(pre, [l'], d, k);
    assert Score([l], d, k) == RankScore(l, d, k, 0);
    assert Score([l'], d, k) == RankScore(l', d, k, 0);
  }

  /** One more ranked list never lowers a score. */
  lemma ScoreAppendList<D>(lists: seq<seq<D>>, list: seq<D>, d: D, k: nat)
    requires k > 0
    ensures Score(lists + [list], d, k) >= Score(lists, d, k)
  {
    assert (lists + [list])[..|lists|] == lists;
    RankScoreNonNegative(list, d, k, 0);
  }

  // ----------------------------------------------------------------- fusion

  function KeepAll<D>(d: D): bool { true }
  function Identity<D>(d: D): D { d }

  /** The distinct documents of the lists in first-seen order: the key order of the `scores` dictionary. */
  function FirstSeen<D(==)>(lists: seq<seq<D>>): seq<D>
  {
    FirstPerKey(Flatten(lists), KeepAll, Identity)
  }

  /** `[(loads(key), score) for key, score in scores.items()]`, before sorting. */
  function Tally<D(==)>(lists: seq<seq<D>>, k: nat): seq<(D, real)>
    requires k > 0
  {
    var docs := FirstSeen(lists);
    seq(|docs|, i requires 0 <= i < |docs| => (docs[i], Score(lists, docs[i], k)))
  }

  /** Places `e` before the first entry whose score is not higher than its own. */
  function Insert<D>(e: (D, real), sorted: seq<(D, real)>): seq<(D, real)>
  {
    if sorted == [] || sorted[0].1 <= e.1 then [e] + sorted
    else [sorted[0]] + Insert(e, sorted[1..])
  }

  /** `entries.sort(key=lambda x: x[1], reverse=True)`: a stable sort by descending score. */
  function SortByScore<D>(entries: seq<(D, real)>): seq<(D, real)>
  {
    if entries == [] then [] else Insert(entries[0], SortByScore(entries[1..]))
  }

  predicate NonIncreasing<D>(s: seq<(D, real)>)
  {
    forall i, j :: 0 <= i < j < |s| ==> s[i].1 >= s[j].1
  }

  /** The entries scored exactly `v`, in their order in `s`. */
  function WithScore<D>(s: seq<(D, real)>, v: real): seq<(D, real)>
  {
    if s == [] then [] else (if s[0].1 == v then [s[0]] else []) + WithScore(s[1..], v)
  }

  predicate DistinctDocs<D(==)>(s: seq<(D, real)>)
  {
    forall i, j :: 0 <= i < j < |s| ==> s[i].0 != s[j].0
  }

  function Docs<D>(s: seq<(D, real)>): seq<D>
  {
    seq(|s|, i requires 0 <= i < |s| => s[i].0)
  }

  /** `Insert(e, s)` holds `e` and the entries of `s`, each as often as before. */
  lemma {:induction false} InsertPerm<D>(e: (D, real), s: seq<(D, real)>)
    ensures multiset(Insert(e, s)) == multiset(s) + multiset{e}
  {
    if !(s == [] || s[0].1 <= e.1) {
      InsertPerm(e, s[1..]);
      assert s == [s[0]] + s[1..];
    }
  }

  lemma {:induction false} InsertSorted<D>(e: (D, real), s: seq<(D, real)>)
    requires NonIncreasing(s)
    ensures NonIncreasing(Insert(e, s))
  {
    var r := Insert(e, s);
    if s == [] || s[0].1 <= e.1 {
      forall i, j | 0 <= i < j < |r| ensures r[i].1 >= r[j].1 {
        assert r[j] == s[j - 1];
        if i > 0 {
          assert r[i] == s[i - 1];
        }
      }
    } else {
      var tail := Insert(e, s[1..]);
      assert NonIncreasing(s[1..]) by {
        forall i, j | 0 <= i < j < |s| - 1 ensures s[1..][i].1 >= s[1..][j].1 {
          assert s[1..][i] == s[i + 1] && s[1..][j] == s[j + 1];
        }
      }
      InsertSorted(e, s[1..]);
      forall i, j | 0 <= i < j < |r| ensures r[i].1 >= r[j].1 {
        assert r[j] == tail[j - 1];
        if i == 0 {
          assert r[j] in tail;
          InsertMember(e, s[1..], r[j]);
          if r[j] != e {
            var m :| 0 <= m < |s| - 1 && s[1..][m] == r[j];
            assert s[m + 1] == r[j];
          }
        } else {
          assert r[i] == tail[i - 1];
        }
      }
    }
  }

  /** The entries of an insertion are the inserted one and the old ones. */
  lemma {:induction false} InsertMember<D>(e: (D, real), s: seq<(D, real)>, x: (D, real))
    ensures x in Insert(e, s) <==> x == e || x in s
  {
    if s != [] && s[0].1 > e.1 {
      InsertMember(e, s[1..], x);
      assert Insert(e, s) == [s[0]] + Insert(e, s[1..]);
      assert s == [s[0]] + s[1..];
    }
  }

  lemma {:induction false} InsertStable<D>(e: (D, real), s: seq<(D, real)>, v: real)
    ensures WithScore(Insert(e, s), v) == (if e.1 == v then [e] else []) + WithScore(s, v)
  {
    var r := Insert(e, s);
    var mark := if e.1 == v then [e] else [];
    if s == [] || s[0].1 <= e.1 {
      assert r == [e] + s && r[0] == e && r[1..] == s;
      assert WithScore(r, v) == mark + WithScore(s, v);
    } else {
      var t := s[1..];
      InsertStable(e, t, v);
      assert r == [s[0]] + Insert(e, t) && r[0] == s[0] && r[1..] == Insert(e, t);
      var head := if s[0].1 == v then [s[0]] else [];
      assert WithScore(r, v) == head + (mark + WithScore(t, v));
      assert WithScore(s, v) == head + WithScore(t, v);
      assert head == [] || mark == [];
    }
  }

  lemma {:induction false} InsertDistinct<D>(e: (D, real), s: seq<(D, real)>)
    requires DistinctDocs(s)
    requires forall x :: x in s ==> x.0 != e.0
    ensures DistinctDocs(Insert(e, s))
  {
    var r := Insert(e, s);
    if s == [] || s[0].1 <= e.1 {
      forall i, j | 0 <= i < j < |r| ensures r[i].0 != r[j].0 {
        assert r[j] == s[j - 1];
        if i > 0 {
          assert r[i] == s[i - 1];
        }
      }
    } else {
      var tail := Insert(e, s[1..]);
      assert DistinctDocs(s[1..]) by {
        forall i, j | 0 <= i < j < |s| - 1 ensures s[1..][i].0 != s[1..][j].0 {
          assert s[1..][i] == s[i + 1] && s[1..][j] == s[j + 1];
        }
      }
      InsertDistinct(e, s[1..]);
      InsertPerm(e, s[1..]);
      forall i, j | 0 <= i < j < |r| ensures r[i].0 != r[j].0 {
        assert r[j] == tail[j - 1];
        if i == 0 {
          assert r[j] in multiset(tail);
          if r[j] != e {
            assert r[j] in multiset(s[1..]);
            var m :| 0 <= m < |s| - 1 && s[1..][m] == r[j];
            assert s[m + 1] == r[j];
          }
        } else {
          assert r[i] == tail[i - 1];
        }
      }
    }
  }

  /** The sort is a permutation of its input. */
  lemma {:induction false} SortByScorePerm<D>(entries: seq<(D, real)>)
    ensures multiset(SortByScore(entries)) == multiset(entries)
  {
    if entries != [] {
      assert entries == [entries[0]] + entries[1..];
      SortByScorePerm(entries[1..]);
      InsertPerm(entries[0], SortByScore(entries[1..]));
    }
  }

  /** The sort orders by non-increasing score. */
  lemma {:induction false} SortByScoreSorted<D>(entries: seq<(D, real)>)
    ensures NonIncreasing(SortByScore(entries))
  {
    if entries != [] {
      SortByScoreSorted(entries[1..]);
      InsertSorted(entries[0], SortByScore(entries[1..]));
    }
  }

  /** The sort is stable: the entries of any one score keep their relative order. */
  lemma {:induction false} SortByScoreStable<D>(entries: seq<(D, real)>, v: real)
    ensures WithScore(SortByScore(entries), v) == WithScore(entries, v)
  {
    if entries != [] {
      SortByScoreStable(entries[1..], v);
      InsertStable(entries[0], SortByScore(entries[1..]), v);
    }
  }

  /** The sort keeps distinct documents distinct. */
  lemma {:induction false} SortByScoreDistinct<D>(entries: seq<(D, real)>)
    requires DistinctDocs(entries)
    ensures DistinctDocs(SortByScore(entries))
  {
    if entries != [] {
      var e, rest := entries[0], entries[1..];
      assert DistinctDocs(rest) by {
        forall i, j | 0 <= i < j < |rest| ensures rest[i].0 != rest[j].0 {
          assert rest[i] == entries[i + 1] && rest[j] == entries[j + 1];
        }
      }
      SortByScoreDistinct(rest);
      SortByScorePerm(rest);
      var sorted := SortByScore(rest);
      forall x | x in sorted ensures x.0 != e.0 {
        assert x in multiset(rest);
        var n :| 0 <= n < |rest| && rest[n] == x;
        assert entries[n + 1] == x;
      }
      InsertDistinct(e, sorted);
    }
  }

  /** `reciprocal_rank_fusion`'s result as a function of its input. */
  function Fused<D(==)>(lists: seq<seq<D>>, k: nat): seq<(D, real)>
    requires k > 0
  {
    SortByScore(Tally(lists, k))
  }

  lemma TallyFacts<D>(lists: seq<seq<D>>, k: nat)
    requires k > 0
    ensures DistinctDocs(Tally(lists, k))
    ensures forall d :: d in Docs(Tally(lists, k)) <==> d in Flatten(lists)
  {
    var flat := Flatten(lists);
    var t := Tally(lists, k);
    FirstPerKeyDistinct(flat, KeepAll, Identity);
    FirstPerKeyKeys(flat, KeepAll, Identity);
    FirstPerKeySubset(flat, KeepAll, Identity);
    forall d ensures d in Docs(t) <==> d in flat {
      KeysSeenMember(flat, KeepAll, Identity, d);
      if d in flat {
        var j :| 0 <= j < |flat| && flat[j] == d;
        assert KeepAll(flat[j]) && Identity(flat[j]) == d;
        var y :| y in FirstSeen(lists) && Identity(y) == d;
        var i :| 0 <= i < |FirstSeen(lists)| && FirstSeen(lists)[i] == y;
        assert Docs(t)[i] == d;
      }
    }
  }

  /**
   * What `reciprocal_rank_fusion` promises: one entry per distinct document of
   * the input, carrying its score, in non-increasing score order, with equal
   * scores left in first-seen order.
   */
  lemma FusedFacts<D>(rankedLists: seq<seq<D>>, k: nat)
    requires k > 0
    ensures DistinctDocs(Fused(rankedLists, k))
    ensures forall i, j :: 0 <= i < |rankedLists| && 0 <= j < |rankedLists[i]| ==>
      rankedLists[i][j] in Docs(Fused(rankedLists, k))
    ensures forall d :: d in Docs(Fused(rankedLists, k)) ==> d in Flatten(rankedLists)
    ensures forall e :: e in Fused(rankedLists, k) ==> e.1 == Score(rankedLists, e.0, k)
    ensures NonIncreasing(Fused(rankedLists, k))
    ensures forall v :: WithScore(Fused(rankedLists, k), v) == WithScore(Tally(rankedLists, k), v)
  {
    var tally := Tally(rankedLists, k);
    var fused := Fused(rankedLists, k);
    assert DistinctDocs(fused) && NonIncreasing(fused) by {
      TallyFacts(rankedLists, k);
      SortByScoreSorted(tally);
      SortByScoreDistinct(tally);
    }
    forall v ensures WithScore(fused, v) == WithScore(tally, v) {
      SortByScoreStable(tally, v);
    }
    FusedDocs(rankedLists, k);
    forall i, j | 0 <= i < |rankedLists| && 0 <= j < |rankedLists[i]|
      ensures rankedLists[i][j] in Docs(fused)
    {
      FlattenMember(rankedLists, rankedLists[i][j]);
    }
    forall e | e in fused ensures e.1 == Score(rankedLists, e.0, k) {
      FusedEntry(rankedLists, k, e);
    }
  }

  /** The entries of `Fused` are those of `Tally`. */
  lemma FusedEntry<D>(rankedLists: seq<seq<D>>, k: nat, e: (D, real))
    requires k > 0
    ensures e in Fused(rankedLists, k) <==> e in Tally(rankedLists, k)
    ensures e in Fused(rankedLists, k) ==> e.1 == Score(rankedLists, e.0, k)
  {
    var tally := Tally(rankedLists, k);
    var fused := Fused(rankedLists, k);
    SortByScorePerm(tally);
    assert e in fused <==> e in multiset(fused);
    assert e in tally <==> e in multiset(tally);
    if e in tally {
      var n :| 0 <= n < |tally| && tally[n] == e;
    }
  }

  /** The documents of `Fused` are exactly the documents of the input lists. */
  lemma FusedDocs<D>(rankedLists: seq<seq<D>>, k: nat)
    requires k > 0
    ensures forall d :: d in Docs(Fused(rankedLists, k)) <==> d in Flatten(rankedLists)
  {
    var tally := Tally(rankedLists, k);
    var fused := Fused(rankedLists, k);
    TallyFacts(rankedLists, k);
    forall d ensures d in Docs(fused) <==> d in Docs(tally) {
      if d in Docs(fused) {
        var m :| 0 <= m < |fused| && Docs(fused)[m] == d;
        FusedEntry(rankedLists, k, fused[m]);
        var n :| 0 <= n < |tally| && tally[n] == fused[m];
        assert Docs(tally)[n] == d;
      }
      if d in Docs(tally) {
        var n :| 0 <= n < |tally| && Docs(tally)[n] == d;
        FusedEntry(rankedLists, k, tally[n]);
        var m :| 0 <= m < |fused| && fused[m] == tally[n];
        assert Docs(fused)[m] == d;
      }
    }
  }

  lemma RankScoreStep<D>(results: seq<D>, rank: nat, d: D, k: nat)
    requires k > 0 && rank < |results|
    ensures RankScore(results[..rank + 1], d, k, 0)
         == RankScore(results[..rank], d, k, 0) + (if results[rank] == d then Recip(rank + k) else 0.0)
  {
    assert results[..rank + 1][..rank] == results[..rank];
  }

  /**
   * The score dictionary after tallying `lists`: its keys are the documents of
   * `lists`, each with its reciprocal-rank score over them.
   */
  ghost predicate Tallied<D>(scores: map<D, real>, lists: seq<seq<D>>, k: nat)
    requires k > 0
  {
    && (forall d | d in Flatten(lists) :: d in scores)
    && (forall d | d in scores :: d in Flatten(lists) && scores[d] == Score(lists, d, k))
  }

  /**
   * The state of `reciprocal_rank_fusion` after reading the first `rank`
   * documents of `results` on top of `lists`: the key order is the order of
   * first appearance, and each key holds its score over `lists` plus what
   * that prefix of `results` adds.
   */
  ghost predicate Reading<D>(scores: map<D, real>, order: seq<D>, lists: seq<seq<D>>, results: seq<D>, rank: nat, k: nat)
    requires k > 0 && rank <= |results|
  {
    var seen := Flatten(lists) + results[..rank];
    && order == FirstPerKey(seen, KeepAll, Identity)
    && (forall d | d in seen :: d in scores)
    && (forall d | d in scores :: d in seen && scores[d] == Score(lists, d, k) + RankScore(results[..rank], d, k, 0))
  }

  /**
   * One pass of `reciprocal_rank_fusion`'s inner loop: every document of
   * `results` gains 1/(rank + k), and a document seen for the first time joins
   * the dictionary's key order.
   */
  method AddRankedList<D(==)>(scores: map<D, real>, order: seq<D>, ghost lists: seq<seq<D>>, results: seq<D>, k: nat)
    returns (scores': map<D, real>, order': seq<D>)
    requires k > 0
    requires order == FirstSeen(lists)
    requires Tallied(scores, lists, k)
    ensures order' == FirstSeen(lists + [results])
    ensures Tallied(scores', lists + [results], k)
  {
    scores', order' := scores, order;
    var rank := 0;
    TalliedStart(lists, scores, order, results, k);
    while rank < |results|
      invariant 0 <= rank <= |results|
      invariant Reading(scores', order', lists, results, rank, k)
    {
      var doc := results[rank];
      ghost var before, orderBefore := scores', order';
      scores', order' := AddToScore(scores', order', doc, Recip(rank + k));
      ScoreUpdateStep(lists, results, rank, k, before, orderBefore, scores', order');
      rank := rank + 1;
    }
    ScoreAppendStep(lists, results, k, scores', order');
  }

  /**
   * `scores'`/`order'` is `scores`/`order` after `doc` gains `w`: a new key is
   * appended to the key order and starts from 0, and no other entry changes.
   */
  ghost predicate Bumped<D>(scores: map<D, real>, order: seq<D>, doc: D, w: real,
                            scores': map<D, real>, order': seq<D>)
  {
    && order' == (if doc in scores then order else order + [doc])
    && (forall d | d in scores :: d in scores')
    && (forall d | d in scores' :: d in scores || d == doc)
    && (forall d | d in scores' && d != doc :: scores'[d] == scores[d])
    && doc in scores' && scores'[doc] == (if doc in scores then scores[doc] else 0.0) + w
  }

  /**
   * `scores.setdefault(key, 0.0)` followed by `scores[key] += w`. A new key
   * joins the dictionary's insertion order. The map and the order are
   * separate fields here.
   */
  method AddToScore<D(==)>(scores: map<D, real>, order: seq<D>, doc: D, w: real)
    returns (scores': map<D, real>, order': seq<D>)
    ensures Bumped(scores, order, doc, w, scores', order')
  {
    scores', order' := scores, order;
    if doc !in scores' {
      scores' := scores'[doc := 0.0];
      order' := order' + [doc];
    }
    scores' := scores'[doc := scores'[doc] + w];
  }

  /** Before the inner loop the dictionary is the tally over `lists`. */
  lemma TalliedStart<D>(lists: seq<seq<D>>, scores: map<D, real>, order: seq<D>, results: seq<D>, k: nat)
    requires k > 0
    requires order == FirstSeen(lists)
    requires Tallied(scores, lists, k)
    ensures Reading(scores, order, lists, results, 0, k)
  {
    assert Flatten(lists) + results[..0] == Flatten(lists);
    assert results[..0] == [];
  }

  /**
   * One step of the inner loop: the document at `rank` enters the key order
   * if it is new, and its score grows by 1/(rank + k); every other score is
   * unchanged.
   */
  lemma ScoreUpdateStep<D>(lists: seq<seq<D>>, results: seq<D>, rank: nat, k: nat,
                           before: map<D, real>, orderBefore: seq<D>, after: map<D, real>, orderAfter: seq<D>)
    requires k > 0 && rank < |results|
    requires Reading(before, orderBefore, lists, results, rank, k)
    requires Bumped(before, orderBefore, results[rank], Recip(rank + k), after, orderAfter)
    ensures Reading(after, orderAfter, lists, results, rank + 1, k)
  {
    var done := Flatten(lists);
    var doc, seen := results[rank], done + results[..rank];
    ReadOneMore(done, results, rank);
    FirstPerKeyStep(seen, doc, KeepAll, Identity);
    KeysSeenMember(seen, KeepAll, Identity, doc);
    assert doc in before <==> doc in seen;
    forall d | d in after
      ensures after[d] == Score(lists, d, k) + RankScore(results[..rank + 1], d, k, 0)
    {
      RankScoreStep(results, rank, d, k);
      if d == doc && doc !in before {
        assert doc !in done && doc !in results[..rank];
        ScoreAbsent(lists, doc, k);
        RankScoreAbsent(results[..rank], doc, k, 0);
      }
    }
  }

  /** Tallying one more ranked list: the documents and scores of `lists + [results]`. */
  lemma ScoreAppendStep<D>(lists: seq<seq<D>>, results: seq<D>, k: nat, scores: map<D, real>, order: seq<D>)
    requires k > 0
    requires Reading(scores, order, lists, results, |results|, k)
    ensures order == FirstSeen(lists + [results])
    ensures Tallied(scores, lists + [results], k)
  {
    assert results[..|results|] == results;
    assert (lists + [results])[..|lists|] == lists;
    FlattenAppend(lists, results);
    assert Flatten(lists + [results]) == Flatten(lists) + results;
    forall d | d in scores ensures scores[d] == Score(lists + [results], d, k) {
      assert Score(lists + [results], d, k) == Score(lists, d, k) + RankScore(results, d, k, 0);
    }
  }

  /** `reciprocal_rank_fusion(ranked_lists, k)`: the score dictionary built list by list, then sorted. */
  method ReciprocalRankFusion<D(==)>(rankedLists: seq<seq<D>>, k: nat) returns (fused: seq<(D, real)>)
    requires k > 0
    ensures fused == Fused(rankedLists, k)
  {
    var scores: map<D, real> := map[];
    var order: seq<D> := [];
    var i := 0;
    while i < |rankedLists|
      invariant 0 <= i <= |rankedLists|
      invariant order == FirstSeen(rankedLists[..i])
      invariant Tallied(scores, rankedLists[..i], k)
    {
      assert rankedLists[..i + 1] == rankedLists[..i] + [rankedLists[i]];
      scores, order := AddRankedList(scores, order, rankedLists[..i], rankedLists[i], k);
      i := i + 1;
    }
    assert rankedLists[..i] == rankedLists;
    FirstPerKeySubset(Flatten(rankedLists), KeepAll, Identity);
    var tally := seq(|order|, j requires 0 <= j < |order| => (order[j], scores[order[j]]));
    assert tally == Tally(rankedLists, k);
    fused := SortByScore(tally);
  }

  // ---------------------------------------------------------- the chain

  /** The ranked lists of the queries whose retrieval did not raise, in query order. */
  function Survivors(queries: seq<string>, retriever: string -> Retrieval): seq<seq<Document>>
  {
    if queries == [] then []
    else Survivors(queries[..|queries| - 1], retriever)
         + match retriever(queries[|queries| - 1])
           case Returned(docs) => [docs]
           case RetrievalFailed => []
  }

  /** The number of queries whose retrieval raised. */
  function Failures(queries: seq<string>, retriever: string -> Retrieval): nat
  {
    if queries == [] then 0
    else Failures(queries[..|queries| - 1], retriever)
         + if retriever(queries[|queries| - 1]).RetrievalFailed? then 1 else 0
  }

  lemma {:induction false} SurvivorsConcat(a: seq<string>, b: seq<string>, retriever: string -> Retrieval)
    ensures Survivors(a + b, retriever) == Survivors(a, retriever) + Survivors(b, retriever)
    ensures Failures(a + b, retriever) == Failures(a, retriever) + Failures(b, retriever)
    decreases |b|
  {
    if b == [] {
      assert a + b == a;
    } else {
      var b0 := b[..|b| - 1];
      assert (a + b)[..|a + b| - 1] == a + b0;
      SurvivorsConcat(a, b0, retriever);
    }
  }

  /** Every query yields one list unless its retrieval raised: a failing query drops out and nothing else changes. */
  lemma {:induction false} SurvivorsCount(queries: seq<string>, retriever: string -> Retrieval)
    ensures |Survivors(queries, retriever)| + Failures(queries, retriever) == |queries|
  {
    if queries != [] {
      SurvivorsCount(queries[..|queries| - 1], retriever);
    }
  }

  lemma FailedQueryContributesNothing(a: seq<string>, q: string, b: seq<string>, retriever: string -> Retrieval)
    requires retriever(q).RetrievalFailed?
    ensures Survivors(a + [q] + b, retriever) == Survivors(a + b, retriever)
  {
    SurvivorsConcat(a + [q], b, retriever);
    SurvivorsConcat(a, [q], retriever);
    SurvivorsConcat(a, b, retriever);
    assert Survivors([q], retriever) == [] by {
      assert [q][..0] == [];
    }
  }

  function Contents(docs: seq<Document>): seq<string>
  {
    seq(|docs|, i requires 0 <= i < |docs| => docs[i].pageContent)
  }

  /** `"\n\n".join(doc.page_content for doc, _ in fused[:top_k])`. */
  function ContextOf(fused: seq<(Document, real)>, topK: int): string
  {
    Join(Contents(Docs(Take(fused, topK))), "\n\n")
  }

  /** A smaller `top_k` gives a prefix of the context a larger one gives. */
  lemma ContextPrefix(fused: seq<(Document, real)>, k1: int, k2: int)
    requires 0 <= k1 <= k2
    ensures ContextOf(fused, k1) <= ContextOf(fused, k2)
  {
    var c2 := Contents(Docs(Take(fused, k2)));
    var m := Min(k1, |fused|);
    assert Contents(Docs(Take(fused, k1))) == c2[..m];
    JoinPrefix(c2, "\n\n", m);
  }

  /** The context holds the contents of `min(top_k, len(fused))` documents, and a `top_k` past the end changes nothing. */
  lemma ContextSize(fused: seq<(Document, real)>, topK: int)
    requires 0 <= topK
    ensures |Contents(Docs(Take(fused, topK)))| == Min(topK, |fused|)
    ensures topK >= |fused| ==> ContextOf(fused, topK) == Join(Contents(Docs(fused)), "\n\n")
  {
  }

  /** When no query retrieves anything the context is empty, not an error. */
  lemma NothingRetrievedEmptyContext(queries: seq<string>, retriever: string -> Retrieval, topK: int)
    requires forall q :: q in queries ==> retriever(q).RetrievalFailed? || retriever(q).docs == []
    ensures ContextOf(Fused(Survivors(queries, retriever), DefaultK), topK) == []
  {
    var lists := Survivors(queries, retriever);
    NoDocuments(queries, retriever);
    assert FirstSeen(lists) == [];
    assert Tally(lists, DefaultK) == [];
  }

  lemma {:induction false} NoDocuments(queries: seq<string>, retriever: string -> Retrieval)
    requires forall q :: q in queries ==> retriever(q).RetrievalFailed? || retriever(q).docs == []
    ensures Flatten(Survivors(queries, retriever)) == []
  {
    if queries != [] {
      var init, q := queries[..|queries| - 1], queries[|queries| - 1];
      assert forall x :: x in init ==> x in queries;
      NoDocuments(init, retriever);
      assert q in queries;
      match retriever(q)
      case Returned(docs) =>
        assert Survivors(queries, retriever) == Survivors(init, retriever) + [docs];
        FlattenAppend(Survivors(init, retriever), docs);
      case RetrievalFailed =>
        assert Survivors(queries, retriever) == Survivors(init, retriever);
    }
  }

  /**
   * `rag_fusion_chain(question, retriever, top_k)`: the queries, then one
   * ranked list per query whose retrieval did not raise, fused with k = 5,
   * and the context of the best `top_k` (the source's default is 30, here a
   * parameter). An exception before retrieval gives
   * `("", [])`; there is no fallback to the question as the only query.
   */
  method RagFusionChain(generation: Generation, retriever: string -> Retrieval, topK: int)
    returns (context: string, queries: seq<string>)
    ensures generation.GenerationFailed? ==> context == [] && queries == []
    ensures generation.Generated? ==> queries == GenerateQuery(generation.output, NumQuery)
    ensures generation.Generated? ==>
      context == ContextOf(Fused(Survivors(queries, retriever), DefaultK), topK)
  {
    if generation.GenerationFailed? {
      return [], [];
    }
    queries := GenerateQuery(generation.output, NumQuery);
    var rankedLists: seq<seq<Document>> := [];
    for i := 0 to |queries|
      invariant rankedLists == Survivors(queries[..i], retriever)
    {
      assert queries[..i + 1][..i] == queries[..i];
      match retriever(queries[i])
      case Returned(results) =>
        rankedLists := rankedLists + [results];
      case RetrievalFailed =>
    }
    assert queries[..|queries|] == queries;
    var fused := ReciprocalRankFusion(rankedLists, DefaultK);
    var topDocs := Contents(Docs(Take(fused, topK)));
    context := Join(topDocs, "\n\n");
  }

  /** The score formula on the smallest inputs: one rank-0 hit scores 1/5, two score 2/5. */
  lemma RankFormulaExamples<D>(d: D)
    ensures Score([[d]], d, DefaultK) == 0.2
    ensures Score([[d], [d]], d, DefaultK) == 0.4
  {
    assert [[d]][..0] == [];
    assert [[d], [d]][..1] == [[d]];
    assert [d][..0] == [];
    assert RankScore([d], d, DefaultK, 0) == Recip(5) == 0.2;
  }

  lemma SmallListFacts<D>(a: D, b: D)
    requires a != b
    ensures FirstPerKey([a, b], KeepAll, Identity) == [a, b]
    ensures FirstPerKey([a, b, b], KeepAll, Identity) == [a, b]
  {
    var e: seq<D> := [];
    assert FirstPerKey(e, KeepAll, Identity) == [] && KeysSeen(e, KeepAll, Identity) == {};
    FirstPerKeyStep(e, a, KeepAll, Identity);
    assert e + [a] == [a];
    FirstPerKeyStep([a], b, KeepAll, Identity);
    assert [a] + [b] == [a, b];
    FirstPerKeyStep([a, b], b, KeepAll, Identity);
    assert [a, b] + [b] == [a, b, b];
  }

  /** The per-list scores of two-document lists with k = 5. */
  lemma SmallListScores<D>(a: D, b: D)
    requires a != b
    ensures RankScore([a], a, DefaultK, 0) == 0.2 && RankScore([b], b, DefaultK, 0) == 0.2
    ensures RankScore([b], a, DefaultK, 0) == 0.0 && RankScore([a], b, DefaultK, 0) == 0.0
    ensures RankScore([a, b], a, DefaultK, 0) == 0.2 && RankScore([a, b], b, DefaultK, 0) == 1.0 / 6.0
  {
  }

  /** Two documents hit once each at rank 0 tie at 1/5 and stay in first-seen order. */
  lemma FusedTieExample<D>(a: D, b: D)
    requires a != b
    ensures Fused([[a], [b]], DefaultK) == [(a, 0.2), (b, 0.2)]
  {
    TieTally(a, b);
    var t := Tally([[a], [b]], DefaultK);
    assert t[1..] == [(b, 0.2)];
    assert SortByScore(t[1..]) == [(b, 0.2)];
  }

  lemma TieTally<D>(a: D, b: D)
    requires a != b
    ensures Tally([[a], [b]], DefaultK) == [(a, 0.2), (b, 0.2)]
  {
    SmallListFacts(a, b);
    SmallListScores(a, b);
    var l1 := [[a], [b]];
    assert l1[..1] == [[a]] && [[a]][..0] == [];
    FlattenAppend([[a]], [b]);
    FlattenAppend([], [a]);
    assert Flatten(l1) == [a, b];
    assert FirstSeen(l1) == [a, b];
    assert Score([[a]], a, DefaultK) == 0.2;
    assert Score([[a]], b, DefaultK) == 0.0;
  }

  /** A document hit twice overtakes one hit once at a better rank: 1/6 + 1/5 = 11/30 against 1/5. */
  lemma FusedRepeatExample<D>(a: D, b: D)
    requires a != b
    ensures Fused([[a, b], [b]], DefaultK) == [(b, 11.0 / 30.0), (a, 0.2)]
  {
    RepeatTally(a, b);
    var t := Tally([[a, b], [b]], DefaultK);
    assert t[1..] == [(b, 11.0 / 30.0)];
    var top: seq<(D, real)> := [(b, 11.0 / 30.0)];
    assert SortByScore(t[1..]) == top;
    assert top[1..] == [];
    assert Insert((a, 0.2), top) == [(b, 11.0 / 30.0)] + Insert((a, 0.2), []);
  }

  lemma RepeatTally<D>(a: D, b: D)
    requires a != b
    ensures Tally([[a, b], [b]], DefaultK) == [(a, 0.2), (b, 11.0 / 30.0)]
  {
    SmallListFacts(a, b);
    SmallListScores(a, b);
    var l2 := [[a, b], [b]];
    assert l2[..1] == [[a, b]] && [[a, b]][..0] == [];
    FlattenAppend([[a, b]], [b]);
    FlattenAppend([], [a, b]);
    assert Flatten(l2) == [a, b, b];
    assert FirstSeen(l2) == [a, b];
    assert Score([[a, b]], a, DefaultK) == 0.2;
    assert Score([[a, b]], b, DefaultK) == 1.0 / 6.0;
  }
}
