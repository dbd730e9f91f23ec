# Stock-curve similarity, trading signals, curve compression and code conversion — a Dafny model

This project models the core of a small stock-analysis system. The system has four parts.

**Similarity engine.** A two-stage engine finds stocks whose recent price curve looks like a query curve.
- A KD-tree over 10-dimensional feature vectors proposes a pool of candidates.
- Dynamic time warping (DTW) on the normalised closing prices then reranks them.
- The engine appears twice in the repository, with sequence length 20 (`similarity_web.py`) and with sequence length 60 (`data/kline_similarity_search.py`). It is modelled once, with the sequence length as a parameter.

**Signal rules.** The per-row rules of `data/signals.py` turn indicator columns into buy/sell/hold signals:
- MA and MACD crossovers;
- RSI thresholds;
- Bollinger touches;
- combining the signals by sign;
- picking the latest signal.

**Curve compression.** `data/curve_analyzer.py` detects anomalies and compresses a curve. It keeps every anomaly, stride-samples the normal points and sorts the result by x.

**Stock tracker rules.** `data/stock_tracker.py` contains three pure rules:
- converting a stock code to the BaoStock form;
- the adjust-flag mapping;
- the incremental merge of new daily bars into a stored kline.

## Modules

| file | module | contents |
|---|---|---|
| `wrappers.dfy` | `Wrappers` | `Option`, used for every error path: a Python exception becomes `None`. |
| `seqs.dfy` | `Seqs` | Sequence helpers: `Map`, `Range`, `Distinct`, `Min`, `KeepIn` and `DropIn`. |
| `sorting.dfy` | `Sorting` | A stable insertion sort (`SortBy`), the stand-in for Python's stable `sort`/`sorted`. Also: there is only one ascending arrangement of a multiset of reals. |
| `kdtree.dfy` | `KdTree` | The KD-tree as an inductive datatype, the median-split build, and the ordering invariant. |
| `kdquery.dfy` | `KdQuery` | The bounded "worst-so-far" collection, the pruned search, and its exactness against brute force. |
| `dtw.dfy` | `Dtw` | The DTW recurrence as a recursive specification over `Fin(real) \| Inf` costs. A row-by-row method computes it. |
| `engine.dfy` | `Engine` | Query preparation, shape-sample indices, feature layout, the feature map, and the DTW rerank/sort/truncate tail of `search`. |
| `signals.dfy` | `Signals` | Columns of `NaN \| Num(real)` cells in a frame. The four rules, the combination, and the latest-signal fallback. |
| `curve.dfy` | `CurveAnalyzer` | `detect_anomalies` and `compress_data`. |
| `tracker.dfy` | `StockTracker` | Code conversion, adjust flag, and the kline merge. |

## Modelling conventions

**Numbers**
- Feature vectors and normalised series are sequences of `real`.
- KD distances are squared Euclidean distances. The source's pruning test `abs(diff) < worst` on true distances is the same test as `diff * diff < worst²` on squared ones, so no square root is needed.
- DTW uses `|x - y|` on reals. Its infinite border cells are the `Inf` cost.

**Min-heap**
- The source keeps a `heapq` min-heap of `(-distance, index)`. It is modelled as a sequence of entries.
- When full, the collection evicts the entry with the largest distance. On a tie it evicts the entry with the smallest index, because that is the least `(-d, i)` tuple.
- The returned list is the collection sorted by distance. Python's stable sort is applied to the heap's internal order, which is not modelled. Results are therefore stated up to the order of ties, as multisets and as sorted distance sequences.

**pandas frames**
- A frame is a row count plus a map from column names to columns. A missing column is a `KeyError`, modelled as `None`.
- NaN cells make every comparison false. `shift(1)` puts NaN in row 0.
- When two `loc` assignments hit the same row, the later one wins.
- `sum(axis=1)` skips NaN.

**Python semantics**
- `int()` of a non-negative real is its floor. The products it truncates are exact reals, not doubles (see `CurveAnalyzer.KeepCount` under "## Left out").
- `//` on positive integers is Dafny's `/`.
- `s[::step]` is `Stride`.
- `str.strip()` removes the characters that Python's `str.isspace` accepts.
- Python's `<` on strings is the lexicographic `StrLess`.

**Where the source's comments and its behaviour disagree, the model follows the behaviour:**
- The comment at `data/stock_tracker.py:163` ("已经是BaoStock格式", "already in BaoStock format") reads as if a code containing `'.'` is passed through. But codes with a known prefix are tagged before the `'.' in code` test, so `"600000.SH"` becomes `"sh.600000.SH"`.
- For the same reason, not every converted code starts with a two-letter exchange tag: a code with no known prefix that already contains `'.'` is returned stripped but untagged. The model proves what the code does: every converted string contains `'.'`, and conversion is idempotent.
- The comment at `data/signals.py:45` says the MACD rule detects MACD crossing its signal line. In the combined pipeline, however, the MACD rule reads a `Signal` column that the MA rule has just overwritten (see "## Findings").

## Model

| member | source | states |
|---|---|---|
| KdTree.BuildContents | similarity_web.py:37-54 | Building from an index list gives a tree whose nodes are exactly those indices (size = list length). An empty list gives the empty tree, not an error. |
| KdTree.BuildAxes | data/kline_similarity_search.py:36-53 | A node built at depth d splits on axis d mod m. |
| KdTree.BuildValid | similarity_web.py:41-53 | From distinct in-range indices the build gives an ordered tree. At every node, the left subtree's axis values are ≤ the node's and the right subtree's are ≥ it (median of a stable sort). |
| KdQuery.WorstPosMax | similarity_web.py:72-74 | The entry the heap would evict has the largest distance in the collection. Among ties it has the smallest index (the least `(-d, i)` tuple). |
| KdQuery.OfferEffect | similarity_web.py:71-74 | Below capacity the point is pushed. At capacity it replaces exactly the worst entry when strictly closer, so the multiset loses that entry and gains the point; otherwise the collection is unchanged. |
| KdQuery.Search | similarity_web.py:64-85 | The recursive search never shrinks the collection and never grows it beyond k. |
| KdQuery.OfferCollects | data/kline_similarity_search.py:69-73 | Offering a new point keeps the collection truthful (true distances, distinct indices). It holds min(k, seen) entries, and every seen point left out is at least as far as every kept one. |
| KdQuery.FarBound | similarity_web.py:76-80 | Every point on the far side of a node's splitting plane is at least diff² away from the target. |
| KdQuery.PruneCollects | data/kline_similarity_search.py:84-86 | Skipping a subtree whose points are all at least as far as the current worst keeps the collection exact for everything seen, so pruning is sound. |
| KdQuery.SearchCollects | similarity_web.py:64-85 | Searching a subtree extends the exact-collection invariant from the points seen before to those points plus every point of the subtree. |
| KdQuery.Query | similarity_web.py:56-62 | k = 0 on a non-empty tree is an error (`best_heap[0]` on an empty heap). Otherwise the result has at most k indices. |
| KdQuery.NewTree | similarity_web.py:24-28 | Building the tree fails exactly when there are no points: the empty feature matrix has no two-dimensional shape to unpack. Otherwise the tree has a root node. |
| KdQuery.QueryExact | data/kline_similarity_search.py:55-61 | A tree exists exactly when there is at least one point. On the tree built over all n ≥ 1 points: the result has min(k, n) distinct in-range indices, in ascending distance. Its distances are exactly the k smallest of all n distances, i.e. the brute-force answer up to ties. With k ≥ n it is a permutation of 0..n-1. |
| Dtw.Cell | similarity_web.py:87-97 | A table cell is finite iff both of its coordinates are zero or both are positive (border cells are infinite, `D[0][0]` is 0). Finite cells are never negative. |
| Dtw.Distance | data/kline_similarity_search.py:88-104 | The DP method's result equals the recursive recurrence at `(len a, len b)`. |
| Dtw.InfiniteIffOneEmpty | data/kline_similarity_search.py:92-104 | The distance is infinite iff exactly one of the sequences is empty. Otherwise it is non-negative. |
| Dtw.SelfZero | similarity_web.py:90-97 | Along the diagonal of a sequence compared with itself, every cell is 0. |
| Dtw.CellSymmetric | similarity_web.py:94-96 | Swapping the two sequences transposes the table. |
| Dtw.DistanceProperties | similarity_web.py:87-97 | DTW is symmetric, zero on identical sequences, and never negative. |
| Engine.PrepareQuery | similarity_web.py:187-191 | Preparing fails exactly on an empty query (when seq_length > 0): `np.interp` has no sample points. Otherwise the prepared query has length seq_length, and a query already of that length is used unchanged (no resampling). |
| Engine.PrepareIdempotent | similarity_web.py:187-191 | Preparing an already prepared query succeeds and changes nothing, whatever resampling is supplied. |
| Engine.ShapeIndices | similarity_web.py:157-158 | For length L ≥ 1, the integer shape index equals the floor of `linspace(0, L-1, 8)[i]`. The indices lie in [0, L-1], are non-decreasing, and start at 0 and end at L-1. |
| Engine.ExtractFeatures | data/kline_similarity_search.py:137-161 | An empty normalised series fails. Otherwise the feature vector has length 10: slope·100, volatility·100, then the 8 shape samples. |
| Engine.BuildFeatureMap | similarity_web.py:168-177 | `feature_map[p]` is the stock whose features are `features[p]`. Stocks appear in increasing order, and every stock with features appears. |
| Engine.KlineFeatures | data/kline_similarity_search.py:163-169 | The feature list exists iff every stock yields features, and then the p-th feature vector is stock p's. With no stocks the list is empty, and building the tree over it then fails (`KdQuery.NewTree`). |
| Engine.FeatureMapIdentity | similarity_web.py:168-177 | When every stock yields features, `feature_map` is the identity 0..n-1. |
| Engine.SliceEnd | similarity_web.py:210 | Python's `[:top_k]` end index: min(top_k, len) for top_k ≥ 0, and counts from the end for negative top_k. |
| Engine.Rerank | data/kline_similarity_search.py:197-199 | The reranked list has the length of `[:top_k]` on the candidates. |
| Engine.RerankProperties | similarity_web.py:209-210 | The reranked list is sorted by DTW distance and drawn from the candidates. No dropped candidate is closer than a kept one. |
| Engine.RerankDistances | similarity_web.py:209-210 | The kept distances are the ascending candidate distances, truncated to `top_k`. |
| Engine.RerankZeroFirst | data/kline_similarity_search.py:197-199 | A candidate at distance 0 among non-negative distances is ranked first. |
| Engine.SimilaritySearch | similarity_web.py:163-224 | The search starts from a query that has already been prepared and whose features have been extracted. An empty query has already failed in `PrepareQuery` (web engine) or `ExtractFeatures` (both engines). With no indexed stock there is no search: building the KD-tree in `build_index` fails. A non-positive pool is an error too (the KD query fails). Every other search of a non-empty query succeeds. |
| Engine.SearchResults | similarity_web.py:180-210 | With a positive pool, the search succeeds exactly on a non-empty index. The result has `[:top_k]` of min(pool, n) entries, sorted by DTW distance. Each entry is a stock in `feature_map` and carries that stock's DTW distance to the query. |
| Engine.ExhaustivePool | data/kline_similarity_search.py:185-199 | With a pool covering the whole index, the search succeeds exactly when the index is non-empty, and the returned distances are the brute-force top-k DTW distances over all indexed stocks. |
| Engine.ScoresNonNegative | similarity_web.py:201-207 | Every candidate's DTW score is non-negative when finite. |
| Engine.SelfMatchFirst | similarity_web.py:183-224 | A query equal to an indexed stock's series, with an exhaustive pool and top_k ≥ 1, returns a perfect match (distance 0) first. |
| Signals.Get | data/signals.py:22 | Reading a column succeeds iff the column exists (`KeyError` otherwise) and yields that column. |
| Signals.SetColumn | data/signals.py:21 | Assigning a column adds or replaces exactly that column and leaves every other column as it was. |
| Signals.Crossover | data/signals.py:21-28 | A row is 1 iff a crosses above b there (a > b now, a ≤ b at the previous row) and -1 iff it crosses below. Otherwise it is 0. |
| Signals.CrossoverQuiet | data/signals.py:22-28 | Row 0, and any row where an operand or its predecessor is NaN, gets 0. |
| Signals.CrossoverAntisymmetric | data/signals.py:25-28 | Swapping the two lines negates every crossover signal. |
| Signals.CrossoverTernary | data/signals.py:21-28 | Crossover signals are always -1, 0 or 1. |
| Signals.MaSignals | data/signals.py:9-30 | The MA rule fails iff a moving-average column is missing. Otherwise it writes the crossover of short over long MA into `Signal` and changes nothing else. |
| Signals.MacdSignals | data/signals.py:32-51 | The MACD rule fails iff `MACD` or `Signal` is missing. Otherwise it writes the crossover of MACD over `Signal` into `MACD_Signal` and changes nothing else. |
| Signals.RsiColumn | data/signals.py:66-72 | RSI_Signal is -1 iff RSI > overbought, 1 iff RSI < oversold and not above overbought, and 0 on NaN or inside the band. |
| Signals.RsiSignals | data/signals.py:53-74 | The RSI rule fails iff `RSI` is missing. Otherwise it writes `RSI_Signal` and changes nothing else. |
| Signals.RsiOrderedThresholds | data/signals.py:66-72 | With oversold ≤ overbought, the signal is 1 exactly below oversold and -1 exactly above overbought. |
| Signals.BandColumn | data/signals.py:87-93 | BB_Signal is -1 iff Close ≥ upper, and 1 iff Close ≤ lower without touching upper. Otherwise it is 0. |
| Signals.BollingerSignals | data/signals.py:76-95 | The Bollinger rule fails iff a needed column is missing. Otherwise it writes `BB_Signal` and changes nothing else. |
| Signals.BandBothTouchSells | data/signals.py:90-93 | When Close touches both bands, the later assignment wins and the signal is -1. |
| Signals.AddFinal | data/signals.py:116-121 | Combined_Signal is the NaN-skipping row sum of the four signals. Final_Signal is 1, -1 or 0 exactly as that sum is positive, negative or zero, so it is always in {-1, 0, 1}. No other column changes. |
| Signals.CombinedAsWritten | data/signals.py:97-123 | The combined pipeline in the source's order (MA, then MACD, RSI, Bollinger) yields all four signal columns. Its success condition and column values are given by CombinedAsWrittenSignals. |
| Signals.AsWrittenColumns | data/signals.py:110-113 | In the source's order the rules succeed iff MA10, MA50, MACD, RSI, Close and both bands exist; the MACD signal line `Signal` is not needed. `Signal` becomes the MA crossover, and `MACD_Signal` is MACD crossed against that MA crossover column. RSI_Signal and BB_Signal are their rules over the indicators. |
| Signals.CombinedAsWrittenSignals | data/signals.py:97-123 | The combined pipeline as written succeeds iff those inputs exist. Signal is the MA crossover, MACD_Signal is MACD crossed against it, and Final_Signal is ternary. |
| Signals.Combined | data/signals.py:97-123 | The corrected combined pipeline yields all four signal columns. |
| Signals.IntendedColumns | data/signals.py:110-113 | In the corrected order, the pipeline succeeds iff all indicator columns exist. Each signal column is its rule applied to the original indicator columns; in particular MACD is compared with the MACD signal line. |
| Signals.CombinedSignals | data/signals.py:97-123 | The corrected combined pipeline succeeds iff all indicators exist. MACD_Signal and Signal are the intended crossovers, and Final_Signal is ternary. |
| Signals.AsWrittenMisreadsMacd | data/signals.py:110-111 | On a concrete two-row frame where MACD crosses above its signal line: as written, MACD_Signal is -1 and Final_Signal is 0; corrected, both are 1. |
| Signals.LatestSignal | data/signals.py:125-140 | Returns the last Final_Signal if that column exists, else the last Signal, else 0. `iloc[-1]` on an empty frame is an error. |
| Signals.LatestOfCombinedAsWritten | data/signals.py:97-140 | After `generate_combined_signals` as written, on a non-empty frame with its inputs, the latest signal is the last Final_Signal and is -1, 0 or 1. |
| Signals.LatestOfCombined | data/signals.py:135-136 | After the corrected pipeline on a non-empty frame, the latest signal is likewise the last Final_Signal and is -1, 0 or 1. |
| CurveAnalyzer.DetectAnomalies | data/curve_analyzer.py:69-83 | Returns exactly the indices i in [1, len) with \|d[i] - d[i-1]\| > threshold, in ascending order. Inputs of length 0 or 1 give none. |
| CurveAnalyzer.NormalIndices | data/curve_analyzer.py:106 | The normal indices are exactly the indices below n that are not anomalies, in ascending order. |
| CurveAnalyzer.NormalSplit | data/curve_analyzer.py:99-106 | Distinct in-range anomalies and the normal indices split 0..n-1 between them, and there are n - \|anomalies\| normal indices. |
| CurveAnalyzer.Stride | data/curve_analyzer.py:109 | `s[::step]` has ⌈len/step⌉ elements, the j-th being `s[j*step]`. |
| CurveAnalyzer.Sampled | data/curve_analyzer.py:106-111 | Sampling keeps only normal indices. With at most `keep` normal points it keeps them all. Otherwise, with step = count // keep, it keeps ⌈count / step⌉ of them, between `keep` and all; the j-th kept index is `normal[j*step]`. |
| CurveAnalyzer.CompressData | data/curve_analyzer.py:85-124 | Fails (ZeroDivisionError) iff `keep` is 0 while normal points exist. Otherwise the x and y outputs have equal length and x is ascending. The output points are, as a multiset, the anomaly points plus the sampled normal points. |
| CurveAnalyzer.FullRatioKeepsAll | data/curve_analyzer.py:102-111 | With ratio ≥ 1 compression succeeds and returns every input point. |
| CurveAnalyzer.AnomaliesKept | data/curve_analyzer.py:99-117 | Every anomaly point (x[i], y[i]) is in the compressed output. |
| CurveAnalyzer.CompressedFromInput | data/curve_analyzer.py:114-124 | Every output pair is (x[i], y[i]) for one input index i. |
| StockTracker.Strip | data/stock_tracker.py:153 | The stripped code is a slice of the code with only whitespace outside it, and it has no leading or trailing whitespace. |
| StockTracker.StripUnique | data/stock_tracker.py:153 | The strip is the only such slice: any slice with no whitespace at its ends and only whitespace around it is the strip. |
| StockTracker.StripIdempotent | data/stock_tracker.py:153 | Stripping twice is stripping once. |
| StockTracker.ExchangeTag | data/stock_tracker.py:155-167 | The chosen tag is one of "sz.", "sh.", "bj.". No tag only happens for a code containing '.'. |
| StockTracker.ConvertCases | data/stock_tracker.py:155-167 | "sz." iff a Shenzhen prefix. "sh." iff a Shanghai prefix, or no known prefix and no '.'. "bj." iff a Beijing prefix. Untagged iff no known prefix and a '.'. |
| StockTracker.ToBaostock | data/stock_tracker.py:148-168 | Every converted string code contains '.'. |
| StockTracker.ConvertShape | data/stock_tracker.py:152-167 | A converted code is the exchange tag chosen for the stripped code followed by that stripped code, with no whitespace at either end; or, when no tag is chosen, the stripped code itself, which contains '.'. |
| StockTracker.ConvertByPrefix | data/stock_tracker.py:153-167 | A Shenzhen prefix (000/001/002/003/300) gives "sz." + code; otherwise a Shanghai prefix (600/601/603/605/688) gives "sh." + code; otherwise bj8/bj9 gives "bj." + code; otherwise a dotted code comes back stripped and an undotted one gets "sh.". |
| StockTracker.ConvertShenzhenExample | data/stock_tracker.py:155-156 | "000001" converts to "sz.000001". |
| StockTracker.ConvertDottedExample | data/stock_tracker.py:164-165 | "sh.600000", already in BaoStock form, comes back unchanged. |
| StockTracker.ConvertIdempotent | data/stock_tracker.py:152-167 | Converting a converted code changes nothing. |
| StockTracker.ConvertCode | data/stock_tracker.py:150-168 | Non-string codes are returned unchanged, and string codes become strings containing '.'. |
| StockTracker.AdjustFlag | data/stock_tracker.py:233-238 | The flag is "2" iff adjust is "hfq", "1" iff adjust is empty, and "3" otherwise (including "qfq"). |
| StockTracker.StrLessTransitive | data/stock_tracker.py:103 | Lexicographic string order on dates is transitive. |
| StockTracker.StrLessTotal | data/stock_tracker.py:103 | Any two distinct date strings are ordered one way or the other. |
| StockTracker.AppendedMembers | data/stock_tracker.py:88-116 | A row is appended iff it is a valid bar that merge mode accepts: the date is after the last pre-existing date, or nothing pre-existed. Skipped rows contribute nothing. |
| StockTracker.AppendedFilter | data/stock_tracker.py:88-116 | The appended bars are the accepted rows in fetch order, once per fetched row: the j-th appended bar is the row at the j-th position, in increasing order, of the accepted rows, and every accepted row has its position. |
| StockTracker.MergedKline | data/stock_tracker.py:84-116 | In merge mode the existing kline is kept as a prefix. After it (or alone, without merge) come the converted rows that are accepted, in fetch order and once per fetched row, duplicates included. In merge mode a row is accepted iff it is later than the last pre-existing date; without merge every converted row is. |
| StockTracker.SaveKline | data/stock_tracker.py:84-116 | The loop over the fetched rows builds exactly the merged kline. |
| StockTracker.MergeKeepsDatesAscending | data/stock_tracker.py:100-111 | Merging ascending new rows into an ascending kline keeps the dates strictly ascending. |
| StockTracker.RerunAppendsNothing | data/stock_tracker.py:100-111 | Merging the same ascending rows a second time adds nothing. |

## Left out

- Numerics: z-score `normalize`, the `np.polyfit` slope, return volatility, `np.interp` resampling and `np.linalg.norm`. Each is floating-point library code. Slopes, volatilities, normalised series and resampled queries are inputs to the model.
- The square root in KD distances: squared distances order points the same way, and pruning compares squares.
- Wall-clock timing (`time.time`, `elapsed_ms`), Flask routes and CORS, and the web pages.
- `load_data` file globbing and JSON loading. The random corpus `generate_curve` / `generate_data` and `main`, which are random.
- In the tracker: BaoStock login and queries, retries with random sleeps, JSON file reads and writes, the `schedule`/threading loop, and the shared `consecutive_failures` counter. Start dates that depend on `datetime.now()` are also left out.
- The `True`/`False` result of `save_stock_data_to_file`: it reports whether the file write succeeded, which is I/O.
- The indicator numerics of `data/indicators.py` (rolling means, EWM, standard deviations). Indicator columns are inputs.
- `fit_curve`, `calculate_derivative`, MSE/RMSE and `plot_results` in `data/curve_analyzer.py`, and everything under `frontend/`. `data/data_fetcher.py` is not part of this model.
- KdQuery.QueryExact: the order of indices among points at equal distance is left unstated, because it depends on the heap's internal layout. Distances are stated exactly and indices as a set.
- Engine.SearchResults: the order among candidates with equal DTW distance is likewise left unstated, for the same reason.
- Dtw.Distance: the source stores `np.inf` in a float table and a NaN in a series would poison the minimum. The model has no NaN, and uses an explicit `Inf` cost.
- CurveAnalyzer.CompressData: requires distinct in-range anomaly indices and a non-negative ratio. A repeated or out-of-range anomaly, or a negative ratio, makes the source's own arithmetic meaningless (negative keep counts, `IndexError`), and `detect_anomalies` never produces such inputs.
- CurveAnalyzer.KeepCount: the number of normal points to keep, `int((n - len(anomalies)) * compression_ratio)`, is computed from the exact real product. The source multiplies doubles, and the rounded product can differ: `10 * 0.3` is `3.0` as a double, but the exact product with the double nearest 0.3 is just below 3, so the model keeps 2 points where the source keeps 3. Double rounding is not modelled.
- StockTracker.ConvertCode: non-string values are one opaque `Other` case. The model does not distinguish `None`, integers and so on, since the source returns all of them unchanged.
- Engine.ExtractFeatures: models only the feature layout and the shape indices. It does not model the slope or volatility computations, which are inputs.

## Findings

| source | as written | input that shows it | evidently intended | confidence | as-written member | corrected member |
|---|---|---|---|---|---|---|
| data/signals.py:110-111 | `generate_combined_signals` runs the MA rule first. That rule overwrites `Signal`, which `data/indicators.py:42` defines as the MACD signal line, with MA crossovers. The MACD rule then compares MACD against those crossovers. | Two rows: MA10 = [1, 2], MA50 = [1.5, 1.5], MACD = [0.1, 0.3], Signal = [0.2, 0.2], RSI = [50, 50], Close = [1, 1], BB_Lower = [0, 0], BB_Upper = [2, 2]. MACD crosses above its signal line at row 1, yet MACD_Signal[1] = -1 and Final_Signal[1] = 0. | MACD is compared with the MACD signal line (MACD_Signal[1] = 1 and Final_Signal[1] = 1). For example, the MACD rule runs before the MA rule. | medium, not executed | Signals.AsWrittenMisreadsMacd | Signals.CombinedSignals |
