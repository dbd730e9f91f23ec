/** The two-stage search of `StockSimilaritySearch` (similarity_web.py:100-224 and
    data/kline_similarity_search.py:106-204): a feature vector per stock goes into the
    KD-tree; a query takes the `candidate_pool_size` nearest feature vectors, scores each
    candidate stock by DTW on normalised closes, sorts by that score and keeps `top_k`.
    Normalisation, slope, volatility and resampling are floating-point numerics and
    enter as given values. */
module Engine {
  import opened Wrappers
  import opened Seqs
  import opened Sorting
  import opened KdTree
  import opened KdQuery
  import opened Dtw

  /** Number of shape samples and the feature vector's length. */
  const ShapeSamples: nat := 8
  const FeatureLength: nat := 10

  /** `seq_length` of the web engine and of the kline engine, and the defaults of
      `search`. */
  const WebSeqLength: nat := 20
  const KlineSeqLength: nat := 60
  const DefaultTopK: int := 3
  const DefaultPool: int := 50

  /** The web `search` first brings the query to `seq_length` points: a query of that
      length is used unchanged, any other is replaced by its linear resampling
      (`np.interp`, supplied as `resampled`). An empty query of the wrong length has
      no sample points to interpolate between, so `np.interp` raises. */
  function PrepareQuery(query: seq<real>, seqLength: nat, resampled: seq<real>): (r: Option<seq<real>>)
    requires |resampled| == seqLength
    ensures r.None? <==> |query| == 0 && seqLength > 0
    ensures r.Some? ==> |r.value| == seqLength
    ensures |query| == seqLength ==> r == Some(query)
  {
    if |query| == seqLength then Some(query)
    else if |query| == 0 then None
    else Some(resampled)
  }

  /** A prepared query already has `seq_length` points, so preparing it again, with
      any resampling at hand, changes nothing. */
  lemma PrepareIdempotent(query: seq<real>, seqLength: nat, resampled: seq<real>, again: seq<real>)
    requires |resampled| == seqLength && |again| == seqLength
    ensures PrepareQuery(query, seqLength, resampled).Some? ==>
      PrepareQuery(PrepareQuery(query, seqLength, resampled).value, seqLength, again)
      == PrepareQuery(query, seqLength, resampled)
  {
  }

  /** `np.linspace(0, L-1, 8)[i]` as an exact real. */
  function LinspacePoint(i: nat, len: nat): real
    requires 1 <= len
  {
    (i * (len - 1)) as real / 7.0
  }

  /** `np.linspace(0, L-1, 8).astype(int)[i]`: the sample points are non-negative, so the
      cast truncates to the floor. */
  function ShapeIndex(i: nat, len: nat): nat
    requires 1 <= len
  {
    i * (len - 1) / 7
  }

  /** The eight shape indices are the floors of the evenly spaced points, stay inside
      the sequence, never decrease, and start and end at its two ends. */
  lemma ShapeIndices(len: nat)
    requires 1 <= len
    ensures forall i :: 0 <= i < ShapeSamples ==> ShapeIndex(i, len) == LinspacePoint(i, len).Floor
    ensures forall i :: 0 <= i < ShapeSamples ==> ShapeIndex(i, len) <= len - 1
    ensures forall i, j :: 0 <= i <= j < ShapeSamples ==> ShapeIndex(i, len) <= ShapeIndex(j, len)
    ensures ShapeIndex(0, len) == 0 && ShapeIndex(ShapeSamples - 1, len) == len - 1
  {
    forall i | 0 <= i < ShapeSamples ensures ShapeIndex(i, len) == LinspacePoint(i, len).Floor {
      FloorOfQuotient(i * (len - 1));
    }
    forall i, j | 0 <= i <= j < ShapeSamples ensures ShapeIndex(i, len) <= ShapeIndex(j, len) {
      assert i * (len - 1) <= j * (len - 1);
      DivMonotone(i * (len - 1), j * (len - 1));
    }
  }

  lemma FloorOfQuotient(x: nat)
    ensures (x / 7) == (x as real / 7.0).Floor
  {
    var q, r := x / 7, x % 7;
    assert x == 7 * q + r;
    assert x as real / 7.0 == q as real + r as real / 7.0;
  }

  lemma DivMonotone(x: nat, y: nat)
    requires x <= y
    ensures x / 7 <= y / 7
  {
  }

  /** `extract_features`: `[slope*100, volatility*100]` followed by the normalised
      sequence at the eight shape indices. `np.polyfit` rejects an empty sequence, so an
      empty input gives `None`. */
  function ExtractFeatures(slope: real, volatility: real, norm: seq<real>): (r: Option<Point>)
    ensures r.None? <==> |norm| == 0
    ensures r.Some? ==> |r.value| == FeatureLength
    ensures r.Some? ==> r.value[0] == slope * 100.0 && r.value[1] == volatility * 100.0
    ensures r.Some? ==> forall i :: 0 <= i < ShapeSamples ==> r.value[2 + i] == norm[ShapeIndex(i, |norm|)]
  {
    if |norm| == 0 then None
    else
      var shape := seq(ShapeSamples, i requires 0 <= i < ShapeSamples => norm[ShapeIndex(i, |norm|)]);
      Some([slope * 100.0, volatility * 100.0] + shape)
  }

  /** `build_index` of the web engine: keep the feature vectors that could be extracted
      and record, for each, the stock it came from. */
  method BuildFeatureMap(extracted: seq<Option<Point>>) returns (features: seq<Point>, featureMap: seq<nat>)
    ensures |features| == |featureMap|
    ensures forall p, q :: 0 <= p < q < |featureMap| ==> featureMap[p] < featureMap[q]
    ensures forall p :: 0 <= p < |featureMap| ==> featureMap[p] < |extracted| && extracted[featureMap[p]] == Some(features[p])
    ensures forall i :: 0 <= i < |extracted| && extracted[i].Some? ==> i in featureMap
  {
    features, featureMap := [], [];
    var i := 0;
    while i < |extracted|
      invariant 0 <= i <= |extracted|
      invariant |features| == |featureMap|
      invariant forall p, q :: 0 <= p < q < |featureMap| ==> featureMap[p] < featureMap[q]
      invariant forall p :: 0 <= p < |featureMap| ==> featureMap[p] < i && extracted[featureMap[p]] == Some(features[p])
      invariant forall j :: 0 <= j < i && extracted[j].Some? ==> j in featureMap
    {
      if extracted[i].Some? {
        features := features + [extracted[i].value];
        featureMap := featureMap + [i];
      }
      i := i + 1;
    }
  }

  /** `build_index` of the kline engine: no `try`, so one failed extraction aborts the
      whole build; otherwise row `i` is stock `i`. */
  function KlineFeatures(extracted: seq<Option<Point>>): (r: Option<seq<Point>>)
    ensures r.Some? <==> forall i :: 0 <= i < |extracted| ==> extracted[i].Some?
    ensures r.Some? ==> |r.value| == |extracted| && forall i :: 0 <= i < |extracted| ==> extracted[i] == Some(r.value[i])
  {
    if |extracted| == 0 then Some([])
    else
      var rest :- KlineFeatures(extracted[1..]);
      var first :- extracted[0];
      Some([first] + rest)
  }

  /** When every extraction succeeds the map is the identity, which is the kline
      engine's layout (its `build_index` has no `try`). */
  lemma FeatureMapIdentity(extracted: seq<Option<Point>>, features: seq<Point>, featureMap: seq<nat>)
    requires forall i :: 0 <= i < |extracted| ==> extracted[i].Some?
    requires |features| == |featureMap|
    requires forall p, q :: 0 <= p < q < |featureMap| ==> featureMap[p] < featureMap[q]
    requires forall p :: 0 <= p < |featureMap| ==> featureMap[p] < |extracted| && extracted[featureMap[p]] == Some(features[p])
    requires forall i :: 0 <= i < |extracted| && extracted[i].Some? ==> i in featureMap
    ensures featureMap == Range(|extracted|)
    ensures forall p :: 0 <= p < |features| ==> Some(features[p]) == extracted[p]
  {
    StrictlyIncreasingCover(featureMap, |extracted|);
  }

  /** A strictly increasing sequence below `n` that contains all of `0..n-1` is `0..n-1`. */
  lemma StrictlyIncreasingCover(s: seq<nat>, n: nat)
    requires forall p, q :: 0 <= p < q < |s| ==> s[p] < s[q]
    requires forall p :: 0 <= p < |s| ==> s[p] < n
    requires forall i :: 0 <= i < n ==> i in s
    ensures s == Range(n)
  {
    if |s| > 0 {
      IncreasingCoverPrefix(s, n, |s| - 1);
    }
    if n > 0 {
      assert n - 1 in s;
      var q :| 0 <= q < |s| && s[q] == n - 1;
      assert s[|s| - 1] == |s| - 1 < n;
    }
    assert |s| == n;
    assert forall p :: 0 <= p < n ==> s[p] == Range(n)[p];
  }

  /** The first `p + 1` entries of such a sequence are `0..p`. */
  lemma {:induction false} IncreasingCoverPrefix(s: seq<nat>, n: nat, p: nat)
    requires forall a, b :: 0 <= a < b < |s| ==> s[a] < s[b]
    requires forall a :: 0 <= a < |s| ==> s[a] < n
    requires forall i :: 0 <= i < n ==> i in s
    requires p < |s|
    ensures forall a :: 0 <= a <= p ==> s[a] == a
  {
    if p > 0 {
      IncreasingCoverPrefix(s, n, p - 1);
    }
    IncreasingAtLeastPosition(s, p);
    assert p in s;
    var q :| 0 <= q < |s| && s[q] == p;
    assert p <= q;
  }

  lemma {:induction false} IncreasingAtLeastPosition(s: seq<nat>, p: nat)
    requires forall a, b :: 0 <= a < b < |s| ==> s[a] < s[b]
    requires p < |s|
    ensures s[p] >= p
  {
    if p > 0 {
      IncreasingAtLeastPosition(s, p - 1);
    }
  }

  /** One reranked result: a stock index and its DTW distance to the query. */
  datatype Match = Match(stock: nat, dist: Cost)

  /** Python's float order, with `inf` above every finite value. */
  function CostLe(x: Cost, y: Cost): bool {
    match (x, y)
    case (_, Inf) => true
    case (Inf, Fin(_)) => false
    case (Fin(u), Fin(v)) => u <= v
  }

  function MatchLe(a: Match, b: Match): bool {
    CostLe(a.dist, b.dist)
  }

  function MatchDist(a: Match): Cost {
    a.dist
  }

  lemma MatchLeIsTotalPreorder()
    ensures TotalPreorder(MatchLe)
  {
  }

  lemma CostLeIsOrder()
    ensures TotalPreorder(CostLe) && Antisymmetric(CostLe)
  {
  }

  /** Sorting matches by distance puts them in distance order. */
  lemma MatchesSorted(pairs: seq<Match>)
    ensures SortedBy(SortBy(pairs, MatchLe), MatchLe)
  {
    MatchLeIsTotalPreorder();
    SortBySorted(pairs, MatchLe);
  }

  /** Sorting distances puts them in order. */
  lemma CostsSorted(costs: seq<Cost>)
    ensures SortedBy(SortBy(costs, CostLe), CostLe)
  {
    CostLeIsOrder();
    SortBySorted(costs, CostLe);
  }

  lemma CostsUnique(s: seq<Cost>, t: seq<Cost>)
    requires SortedBy(s, CostLe) && SortedBy(t, CostLe) && multiset(s) == multiset(t)
    ensures s == t
  {
    CostLeIsOrder();
    SortedUnique(s, t, CostLe);
  }

  /** The end of the Python slice `xs[:k]` on a list of length `len`: the first `k`
      elements, or for negative `k` all but the last `-k`. */
  function SliceEnd(len: nat, k: int): (e: nat)
    ensures e <= len
    ensures k >= 0 ==> e == Min(k, len)
    ensures k < 0 ==> e == len - Min(-k, len)
  {
    if k >= 0 then Min(k, len) else if len + k > 0 then len + k else 0
  }

  /** `dtw_results.sort(key=lambda x: x[1])` (stable) and `dtw_results[:top_k]`. */
  function Rerank(pairs: seq<Match>, topK: int): (r: seq<Match>)
    ensures |r| == SliceEnd(|pairs|, topK)
  {
    SortBy(pairs, MatchLe)[..SliceEnd(|pairs|, topK)]
  }

  /** The reranked list is in ascending distance order, is drawn from the scored
      candidates, and no candidate left out is closer than one kept. */
  lemma RerankProperties(pairs: seq<Match>, topK: int)
    ensures SortedBy(Rerank(pairs, topK), MatchLe)
    ensures multiset(Rerank(pairs, topK)) <= multiset(pairs)
    ensures forall x, y ::
              x in multiset(pairs) - multiset(Rerank(pairs, topK)) && y in Rerank(pairs, topK) ==> CostLe(y.dist, x.dist)
  {
    var s := SortBy(pairs, MatchLe);
    var e := SliceEnd(|pairs|, topK);
    var r := Rerank(pairs, topK);
    MatchesSorted(pairs);
    assert r == s[..e];
    assert s == r + s[e..];
    assert multiset(pairs) - multiset(r) == multiset(s[e..]);
    PrefixDominates(s, e, MatchLe);
  }

  /** With a non-negative `top_k` the kept distances are the smallest of the candidates'
      distances, in ascending order. */
  lemma RerankDistances(pairs: seq<Match>, topK: int)
    ensures Map(MatchDist, Rerank(pairs, topK)) == SortBy(Map(MatchDist, pairs), CostLe)[..SliceEnd(|pairs|, topK)]
  {
    var s := SortBy(pairs, MatchLe);
    MatchesSorted(pairs);
    CostsSorted(Map(MatchDist, pairs));
    MapMultiset(MatchDist, s, pairs);
    assert SortedBy(Map(MatchDist, s), CostLe) by {
      forall a, b | 0 <= a < b < |s| ensures CostLe(Map(MatchDist, s)[a], Map(MatchDist, s)[b]) {
        assert MatchLe(s[a], s[b]);
      }
    }
    CostsUnique(Map(MatchDist, s), SortBy(Map(MatchDist, pairs), CostLe));
  }

  /** If some candidate is at distance zero, it (or another at zero) is ranked first. */
  lemma RerankZeroFirst(pairs: seq<Match>, topK: int, z: nat)
    requires z < |pairs| && pairs[z].dist == Fin(0.0)
    requires forall p :: 0 <= p < |pairs| ==> (pairs[p].dist.Fin? ==> pairs[p].dist.val >= 0.0)
    requires topK >= 1
    ensures |Rerank(pairs, topK)| >= 1 && Rerank(pairs, topK)[0].dist == Fin(0.0)
  {
    var s := SortBy(pairs, MatchLe);
    MatchesSorted(pairs);
    SameElements(s, pairs);
    assert pairs[z] in s;
    var w :| 0 <= w < |s| && s[w] == pairs[z];
    assert s[0] in pairs;
    if w > 0 {
      assert MatchLe(s[0], s[w]);
    }
  }

  /** The engine after `build_index`: `series[s]` is stock `s`'s normalised closes,
      `features[f]` the feature vector of row `f` and `featureMap[f]` its stock. */
  datatype Index = Index(series: seq<seq<real>>, features: seq<Point>, featureMap: seq<nat>)

  ghost predicate Valid(ix: Index) {
    && |ix.features| == |ix.featureMap|
    && Dims(ix.features, FeatureLength)
    && (forall p :: 0 <= p < |ix.featureMap| ==> ix.featureMap[p] < |ix.series|)
  }

  /** `SimpleKDTree(self.features, ...)`, which raises on an empty index. */
  function IndexTree(ix: Index): Option<Tree> {
    NewTree(ix.features, FeatureLength)
  }

  /** The DTW score of the stock behind feature row `f`. */
  function Scorer(ix: Index, q: seq<real>): nat -> Match {
    (f: nat) => if f < |ix.featureMap| && ix.featureMap[f] < |ix.series|
         then Match(ix.featureMap[f], Value(q, ix.series[ix.featureMap[f]]))
         else Match(0, Inf)
  }

  /** `search(query, top_k, candidate_pool_size)` after the query has been normalised
      (`qNorm`) and its features extracted (`qFeatures`): the KD-tree candidates, each
      scored by DTW against its stock, reranked. With no indexed stock `build_index`
      could not build the tree, so there is nothing to search; a pool of zero or less
      makes the tree read the top of an empty heap, which raises. */
  function SimilaritySearch(ix: Index, qNorm: seq<real>, qFeatures: Point, topK: int, pool: int): (r: Option<seq<Match>>)
    requires Valid(ix) && |qFeatures| == FeatureLength
    ensures r.None? <==> |ix.features| == 0 || pool <= 0
  {
    QueryExact(ix.features, FeatureLength, qFeatures, 1);
    var t :- IndexTree(ix);
    var cands :- Query(ix.features, FeatureLength, t, qFeatures, if pool <= 0 then 0 else pool);
    Some(Rerank(Map<nat, Match>(Scorer(ix, qNorm), cands), topK))
  }

  /** The candidates of a positive pool: `min(pool, n)` distinct feature rows, every
      row once the pool covers the index. */
  lemma CandidateFacts(ix: Index, qFeatures: Point, pool: int)
    requires Valid(ix) && |qFeatures| == FeatureLength && pool >= 1 && |ix.features| > 0
    ensures IndexTree(ix).Some? && Ordered(ix.features, FeatureLength, IndexTree(ix).value)
    ensures var c := Query(ix.features, FeatureLength, IndexTree(ix).value, qFeatures, pool);
      && c.Some?
      && |c.value| == Min(pool, |ix.features|)
      && (forall p :: 0 <= p < |c.value| ==> c.value[p] < |ix.features|)
      && (pool >= |ix.features| ==> multiset(c.value) == multiset(Range(|ix.features|)))
  {
    QueryExact(ix.features, FeatureLength, qFeatures, pool);
  }

  /** The search with a positive pool, spelled out. */
  lemma SearchUnfold(ix: Index, qNorm: seq<real>, qFeatures: Point, topK: int, pool: int)
    requires Valid(ix) && |qFeatures| == FeatureLength && pool >= 1 && |ix.features| > 0
    ensures IndexTree(ix).Some? && Ordered(ix.features, FeatureLength, IndexTree(ix).value)
    ensures var c := Query(ix.features, FeatureLength, IndexTree(ix).value, qFeatures, pool);
      && c.Some?
      && SimilaritySearch(ix, qNorm, qFeatures, topK, pool) == Some(Rerank(Map<nat, Match>(Scorer(ix, qNorm), c.value), topK))
  {
    CandidateFacts(ix, qFeatures, pool);
  }

  /** With a positive pool the search over a non-empty index returns
      `min(top_k, min(pool, n))` results (for `top_k >= 0`), in ascending DTW order,
      each the true DTW distance of an indexed stock reached through the feature map. */
  lemma SearchResults(ix: Index, qNorm: seq<real>, qFeatures: Point, topK: int, pool: int)
    requires Valid(ix) && |qFeatures| == FeatureLength && pool >= 1
    ensures SimilaritySearch(ix, qNorm, qFeatures, topK, pool).Some? <==> |ix.features| > 0
    ensures var r := SimilaritySearch(ix, qNorm, qFeatures, topK, pool);
      r.Some? ==>
      && |r.value| == SliceEnd(Min(pool, |ix.features|), topK)
      && SortedBy(r.value, MatchLe)
      && forall p :: 0 <= p < |r.value| ==>
           && r.value[p].stock in ix.featureMap
           && r.value[p].stock < |ix.series|
           && r.value[p].dist == Value(qNorm, ix.series[r.value[p].stock])
  {
    if |ix.features| > 0 {
      CandidateFacts(ix, qFeatures, pool);
      SearchUnfold(ix, qNorm, qFeatures, topK, pool);
      var cands := Query(ix.features, FeatureLength, IndexTree(ix).value, qFeatures, pool).value;
      var pairs := Map<nat, Match>(Scorer(ix, qNorm), cands);
      RerankProperties(pairs, topK);
      ScoredRows(ix, qNorm, cands, topK);
    }
  }

  /** Every reranked match names a stock behind one of the candidate rows and carries
      that stock's DTW score. */
  lemma ScoredRows(ix: Index, qNorm: seq<real>, cands: seq<nat>, topK: int)
    requires Valid(ix)
    requires forall p :: 0 <= p < |cands| ==> cands[p] < |ix.features|
    ensures var r := Rerank(Map<nat, Match>(Scorer(ix, qNorm), cands), topK);
      forall p :: 0 <= p < |r| ==>
        && r[p].stock in ix.featureMap
        && r[p].stock < |ix.series|
        && r[p].dist == Value(qNorm, ix.series[r[p].stock])
  {
    var pairs := Map<nat, Match>(Scorer(ix, qNorm), cands);
    var r := Rerank(pairs, topK);
    RerankProperties(pairs, topK);
    forall p | 0 <= p < |r|
      ensures r[p].stock in ix.featureMap && r[p].stock < |ix.series|
      ensures r[p].dist == Value(qNorm, ix.series[r[p].stock])
    {
      assert r[p] in multiset(pairs);
      var c :| 0 <= c < |pairs| && pairs[c] == r[p];
      assert cands[c] < |ix.featureMap|;
    }
  }

  /** A pool at least the index size makes every stock a candidate, so the returned
      distances are exactly the brute-force top-k DTW distances over all indexed stocks
      (equal up to the order of ties). An empty index has no search at all. */
  lemma ExhaustivePool(ix: Index, qNorm: seq<real>, qFeatures: Point, topK: int, pool: int)
    requires Valid(ix) && |qFeatures| == FeatureLength && pool >= 1 && pool >= |ix.features|
    ensures SimilaritySearch(ix, qNorm, qFeatures, topK, pool).Some? <==> |ix.features| > 0
    ensures var r := SimilaritySearch(ix, qNorm, qFeatures, topK, pool);
      r.Some? ==>
      Map(MatchDist, r.value)
         == Map(MatchDist, Rerank(Map<nat, Match>(Scorer(ix, qNorm), Range(|ix.features|)), topK))
  {
    if |ix.features| > 0 {
      CandidateFacts(ix, qFeatures, pool);
      SearchUnfold(ix, qNorm, qFeatures, topK, pool);
      var cands := Query(ix.features, FeatureLength, IndexTree(ix).value, qFeatures, pool).value;
      var all := Range(|ix.features|);
      MapMultiset(Scorer(ix, qNorm), cands, all);
      var pairs, allPairs := Map<nat, Match>(Scorer(ix, qNorm), cands), Map<nat, Match>(Scorer(ix, qNorm), all);
      RerankDistances(pairs, topK);
      RerankDistances(allPairs, topK);
      MapMultiset(MatchDist, pairs, allPairs);
      CostsSorted(Map(MatchDist, pairs));
      CostsSorted(Map(MatchDist, allPairs));
      CostsUnique(SortBy(Map(MatchDist, pairs), CostLe), SortBy(Map(MatchDist, allPairs), CostLe));
    }
  }

  /** DTW scores are never negative. */
  lemma ScoresNonNegative(ix: Index, qNorm: seq<real>, cands: seq<nat>)
    ensures forall p :: 0 <= p < |cands| ==>
              var d := Map<nat, Match>(Scorer(ix, qNorm), cands)[p].dist; d.Fin? ==> d.val >= 0.0
  {
    forall p | 0 <= p < |cands|
      ensures var d := Map<nat, Match>(Scorer(ix, qNorm), cands)[p].dist; d.Fin? ==> d.val >= 0.0
    {
      if cands[p] < |ix.featureMap| && ix.featureMap[cands[p]] < |ix.series| {
        InfiniteIffOneEmpty(qNorm, ix.series[ix.featureMap[cands[p]]]);
      }
    }
  }

  /** A query whose normalised sequence equals an indexed stock's, searched with a pool
      covering the whole index, ranks a perfect match (DTW distance zero) first. */
  lemma SelfMatchFirst(ix: Index, qNorm: seq<real>, qFeatures: Point, topK: int, pool: int, f: nat)
    requires Valid(ix) && |qFeatures| == FeatureLength && pool >= |ix.features| && topK >= 1
    requires f < |ix.features| && qNorm == ix.series[ix.featureMap[f]]
    ensures var r := SimilaritySearch(ix, qNorm, qFeatures, topK, pool);
      r.Some? && |r.value| >= 1 && r.value[0].dist == Fin(0.0)
  {
    CandidateFacts(ix, qFeatures, pool);
    SearchUnfold(ix, qNorm, qFeatures, topK, pool);
    var cands := Query(ix.features, FeatureLength, IndexTree(ix).value, qFeatures, pool).value;
    var pairs := Map<nat, Match>(Scorer(ix, qNorm), cands);
    assert Range(|ix.features|)[f] == f;
    assert f in multiset(cands);
    var z :| 0 <= z < |cands| && cands[z] == f;
    assert pairs[z].dist == Fin(0.0) by {
      DistanceProperties(qNorm, qNorm);
    }
    ScoresNonNegative(ix, qNorm, cands);
    RerankZeroFirst(pairs, topK, z);
  }
}
