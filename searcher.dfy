/** The part of `SemanticSearcher.search_transactions` that follows the
    embedding step: keep the transactions whose normalised similarity is
    strictly above the threshold, sort them stably by descending score, and
    report the number of whitespace tokens of the raw query. */
module Searcher {
  import opened Text
  import opened Ranking

  /** `settings.SIMILARITY_THRESHOLD` when the environment does not set it. */
  const DefaultThreshold: real := 0.3

  /** `len(query.split())`. */
  function CountTokens(query: string): (n: nat)
    ensures n == 0 <==> AllSpace(query)
  {
    SplitEmptyIffBlank(query);
    |Split(query)|
  }

  /** The items of `matches` after the loop of lines 186-196: the
      transactions, in order, whose score is strictly above `threshold`. */
  function Above(scores: seq<Entry>, threshold: real): (r: seq<Entry>)
    ensures forall e :: e in r <==> e in scores && e.1 > threshold
    ensures |r| <= |scores|
    decreases |scores|
  {
    if scores == [] then []
    else
      var prefix := scores[..|scores| - 1];
      var last := scores[|scores| - 1];
      assert scores == prefix + [last];
      Above(prefix, threshold) + if last.1 > threshold then [last] else []
  }

  /** The list the search returns: `Above` in stable descending order. */
  function Rank(scores: seq<Entry>, threshold: real): (r: seq<Entry>)
    ensures NonIncreasing(r)
    ensures forall e :: e in r <==> e in scores && e.1 > threshold
    ensures |r| <= |scores|
  {
    var kept := Above(scores, threshold);
    SortKeepsMembers(kept);
    assert |SortByScore(kept)| == |multiset(SortByScore(kept))| == |kept|;
    SortByScore(kept)
  }

  /** `SemanticSearcher.search_transactions`. `scores` lists every
      transaction id, in the order of the transactions table, with its
      normalised cosine similarity to the query, `(cos + 1) / 2`. */
  method SearchTransactions(query: string, scores: seq<Entry>, threshold: real)
    returns (result: seq<Entry>, tokensUsed: nat)
    ensures result == Rank(scores, threshold)
    ensures tokensUsed == if scores == [] then 0 else CountTokens(query)
  {
    if scores == [] {
      return [], 0;
    }
    tokensUsed := |Split(query)|;
    var matches: seq<Entry> := [];
    for idx := 0 to |scores|
      invariant matches == Above(scores[..idx], threshold)
    {
      assert scores[..idx + 1][..idx] == scores[..idx];
      var (transId, normalizedSimilarity) := scores[idx];
      if normalizedSimilarity > threshold {
        matches := matches + [(transId, normalizedSimilarity)];
      }
    }
    assert scores[..|scores|] == scores;
    result := SortByScore(matches);
  }

  /** The search keeps exactly the transactions scored strictly above the
      threshold, each once when the ids are distinct, in non-increasing
      order, with ties in table order. */
  lemma RankProperties(scores: seq<Entry>, threshold: real)
    ensures var r := Rank(scores, threshold);
            && NonIncreasing(r)
            && (forall e :: e in r <==> e in scores && e.1 > threshold)
            && (forall v :: WithScore(r, v) == WithScore(Above(scores, threshold), v))
            && (DistinctIds(scores) ==> DistinctIds(r))
  {
    var kept := Above(scores, threshold);
    SortKeepsMembers(kept);
    forall v ensures WithScore(SortByScore(kept), v) == WithScore(kept, v) {
      SortIsStable(kept, v);
    }
    if DistinctIds(scores) {
      AboveKeepsIdsDistinct(scores, threshold);
      SortKeepsIdsDistinct(kept);
    }
  }

  lemma {:induction false} AboveKeepsIdsDistinct(scores: seq<Entry>, threshold: real)
    requires DistinctIds(scores)
    ensures DistinctIds(Above(scores, threshold))
    decreases |scores|
  {
    if scores != [] {
      var n := |scores| - 1;
      var prefix, last := scores[..n], scores[n];
      forall i, j | 0 <= i < j < |prefix| ensures prefix[i].0 != prefix[j].0 {
        assert prefix[i] == scores[i] && prefix[j] == scores[j];
      }
      AboveKeepsIdsDistinct(prefix, threshold);
      var kept := Above(prefix, threshold);
      assert Above(scores, threshold) == kept + if last.1 > threshold then [last] else [];
      if last.1 > threshold {
        forall e | e in kept ensures e.0 != last.0 {
          assert e in prefix;
          var k :| 0 <= k < |prefix| && prefix[k] == e;
          assert scores[k] == e;
        }
        AppendKeepsIdsDistinct(kept, last);
      } else {
        assert kept + [] == kept;
      }
    }
  }

  /** Lowering the threshold never removes a result. */
  lemma LowerThresholdKeepsResults(scores: seq<Entry>, low: real, high: real)
    requires low <= high
    ensures forall e :: e in Rank(scores, high) ==> e in Rank(scores, low)
  {
    SortKeepsMembers(Above(scores, high));
    SortKeepsMembers(Above(scores, low));
  }

  /** The token count of a query made of words separated by single spaces
      is the number of words. */
  lemma CountTokensOfJoin(words: seq<string>)
    requires forall i :: 0 <= i < |words| ==> IsWord(words[i])
    ensures CountTokens(Join(words)) == |words|
  {
    SplitJoin(words);
  }

  /** "payment from contractor" uses three tokens. */
  lemma ExampleTokenCount()
    ensures CountTokens("payment from contractor") == 3
  {
    var words := ["payment", "from", "contractor"];
    assert Join(words) == "payment from contractor";
    CountTokensOfJoin(words);
  }

  /** At the default threshold a score of exactly 0.3 is dropped (the test is
      strict) and the rest come out highest first. */
  lemma ExampleDefaultThreshold()
    ensures Rank([("a", 0.3), ("b", 0.5), ("c", 0.8)], DefaultThreshold) == [("c", 0.8), ("b", 0.5)]
  {
    ExampleAbove();
    ExampleSort();
  }

  lemma ExampleSort()
    ensures SortByScore([("b", 0.5), ("c", 0.8)]) == [("c", 0.8), ("b", 0.5)]
  {
    var kept: seq<Entry> := [("b", 0.5), ("c", 0.8)];
    assert kept[1..] == [("c", 0.8)];
    assert SortByScore(kept[1..]) == [("c", 0.8)];
    assert SortByScore(kept) == Insert(("b", 0.5), [("c", 0.8)]);
    assert Insert(("b", 0.5), [("c", 0.8)]) == [("c", 0.8), ("b", 0.5)];
  }

  lemma ExampleAbove()
    ensures Above([("a", 0.3), ("b", 0.5), ("c", 0.8)], DefaultThreshold) == [("b", 0.5), ("c", 0.8)]
  {
    var scores: seq<Entry> := [("a", 0.3), ("b", 0.5), ("c", 0.8)];
    assert scores[..2] == [("a", 0.3), ("b", 0.5)];
    assert scores[..2][..1] == [("a", 0.3)];
    assert scores[..1][..0] == [];
    assert Above(scores[..1], DefaultThreshold) == [];
    assert Above(scores[..2], DefaultThreshold) == [("b", 0.5)];
  }
}
