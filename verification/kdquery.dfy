/** The k-nearest-neighbour query of `SimpleKDTree` (similarity_web.py:56-85 and
    data/kline_similarity_search.py:55-86). The `heapq` max-heap of negated distances is
    modelled as a plain sequence of entries: what the proofs need is which entries it
    holds, not how `heapq` arranges them. Distances are squared Euclidean distances;
    the square root of `np.linalg.norm` is monotone, so it changes no comparison. */
module KdQuery {
  import opened Wrappers
  import opened Seqs
  import opened Sorting
  import opened KdTree

  /** One element of the bounded collection: a squared distance and a point index. */
  datatype Entry = Entry(dist: real, index: nat)

  function Square(x: real): real {
    x * x
  }

  lemma SquareMono(x: real, y: real)
    requires 0.0 <= x <= y
    ensures Square(x) <= Square(y)
  {
    assert x * x <= x * y <= y * y;
  }

  /** Squared Euclidean distance between two points of the same dimension. */
  function SqDist(a: Point, b: Point): (d: real)
    requires |a| == |b|
    ensures d >= 0.0
  {
    PartialSqDist(a, b, |a|)
  }

  /** The sum of squared coordinate differences over the first `n` axes. */
  function PartialSqDist(a: Point, b: Point, n: nat): (d: real)
    requires n <= |a| == |b|
    ensures d >= 0.0
  {
    if n == 0 then 0.0 else PartialSqDist(a, b, n - 1) + Square(a[n - 1] - b[n - 1])
  }

  /** One coordinate's contribution never exceeds the whole distance. */
  lemma SqDistCoordinate(a: Point, b: Point, axis: nat)
    requires |a| == |b| && axis < |a|
    ensures Square(a[axis] - b[axis]) <= SqDist(a, b)
  {
    PartialCoordinate(a, b, |a|, axis);
  }

  lemma {:induction false} PartialCoordinate(a: Point, b: Point, n: nat, axis: nat)
    requires n <= |a| == |b| && axis < n
    ensures Square(a[axis] - b[axis]) <= PartialSqDist(a, b, n)
    decreases n
  {
    assert PartialSqDist(a, b, n) == PartialSqDist(a, b, n - 1) + Square(a[n - 1] - b[n - 1]);
    if axis < n - 1 {
      PartialCoordinate(a, b, n - 1, axis);
    }
  }

  /** The position of the entry `heapq` would pop: the largest distance, and among
      equal distances the smallest index, because the heap orders `(-dist, index)`
      tuples. */
  function WorstPos(h: seq<Entry>): (p: nat)
    requires |h| > 0
    ensures p < |h|
  {
    if |h| == 1 then 0
    else
      var p := WorstPos(h[..|h| - 1]);
      var last := h[|h| - 1];
      if last.dist > h[p].dist || (last.dist == h[p].dist && last.index < h[p].index)
      then |h| - 1
      else p
  }

  /** The entry the heap would evict is the farthest one, and the one with the smallest
      index among equally far entries. */
  lemma {:induction false} WorstPosMax(h: seq<Entry>)
    requires |h| > 0
    ensures var p := WorstPos(h);
      && (forall q :: 0 <= q < |h| ==> h[q].dist <= h[p].dist)
      && (forall q :: 0 <= q < |h| && h[q].dist == h[p].dist ==> h[p].index <= h[q].index)
    decreases |h|
  {
    if |h| > 1 {
      var init := h[..|h| - 1];
      WorstPosMax(init);
      assert forall q :: 0 <= q < |h| - 1 ==> init[q] == h[q];
    }
  }

  /** One visit of `_search` to a point: push while the collection holds fewer than `k`
      entries, otherwise replace the worst entry when the new point is strictly closer. */
  function Offer(h: seq<Entry>, e: Entry, k: nat): (r: seq<Entry>)
    requires 1 <= k && |h| <= k
    ensures |r| == Min(|h| + 1, k)
  {
    if |h| < k then h + [e]
    else if e.dist < h[WorstPos(h)].dist then h[WorstPos(h) := e]
    else h
  }

  /** Offering either admits the point, evicting exactly the worst entry when the
      collection is full, or leaves the collection as it was. */
  lemma OfferEffect(h: seq<Entry>, e: Entry, k: nat)
    requires 1 <= k && |h| <= k
    ensures var r := Offer(h, e, k);
      && (e in r || r == h)
      && (forall x :: x in r ==> x in h || x == e)
      && (|h| == k && e.dist >= h[WorstPos(h)].dist ==> r == h)
      && (|h| == k && e.dist < h[WorstPos(h)].dist
          ==> multiset(r) == multiset(h) - multiset{h[WorstPos(h)]} + multiset{e})
  {
    if |h| < k {
      assert Offer(h, e, k) == h + [e];
    } else if e.dist < h[WorstPos(h)].dist {
      var w := WorstPos(h);
      assert Offer(h, e, k) == h[w := e];
      ReplaceMultiset(h, w, e);
      forall x | x in h[w := e] ensures x in h || x == e {
        var q :| 0 <= q < |h| && h[w := e][q] == x;
        if q != w {
          assert x == h[q];
        }
      }
    } else {
      assert Offer(h, e, k) == h;
    }
  }

  /** Overwriting one position swaps one element of the multiset for another. */
  lemma ReplaceMultiset<T>(h: seq<T>, w: nat, e: T)
    requires w < |h|
    ensures multiset(h[w := e]) == multiset(h) - multiset{h[w]} + multiset{e}
  {
    assert h == h[..w] + [h[w]] + h[w + 1..];
    assert h[w := e] == h[..w] + [e] + h[w + 1..];
  }

  /** `_search`: visit the node, descend into the side of the splitting plane that holds
      the target, and into the other side only while the collection is not full or the
      plane is strictly closer than the current worst entry. */
  function Search(pts: seq<Point>, m: nat, t: Tree, target: Point, k: nat, h: seq<Entry>): (r: seq<Entry>)
    requires Dims(pts, m) && |target| == m && Ordered(pts, m, t)
    requires 1 <= k && |h| <= k
    ensures |h| <= |r| <= k
    decreases t
  {
    match t
    case Empty => h
    case Node(i, axis, l, rt) =>
      var h1 := Offer(h, Entry(SqDist(pts[i], target), i), k);
      var diff := target[axis] - pts[i][axis];
      var close := if diff < 0.0 then l else rt;
      var far := if diff < 0.0 then rt else l;
      var h2 := Search(pts, m, close, target, k, h1);
      if |h2| < k || Square(diff) < h2[WorstPos(h2)].dist
      then Search(pts, m, far, target, k, h2)
      else h2
  }

  /** The result order of `query`: a stable sort by distance. */
  function EntryLe(a: Entry, b: Entry): bool {
    a.dist <= b.dist
  }

  function EntryIndex(e: Entry): nat {
    e.index
  }

  function EntryDist(e: Entry): real {
    e.dist
  }

  /** The point indices of a collection, in its order. */
  function Idx(h: seq<Entry>): (r: seq<nat>)
    ensures |r| == |h| && forall p :: 0 <= p < |h| ==> r[p] == h[p].index
  {
    if |h| == 0 then [] else Idx(h[..|h| - 1]) + [h[|h| - 1].index]
  }

  /** The squared distance of each point index to the target. */
  function Dist(pts: seq<Point>, target: Point, j: nat): real {
    if j < |pts| && |pts[j]| == |target| then SqDist(pts[j], target) else 0.0
  }

  function DistTo(pts: seq<Point>, target: Point): nat -> real {
    (j: nat) => Dist(pts, target, j)
  }

  /** `query(target, k)`: the indices of the collected entries, closest first. With
      `k == 0` on a non-empty tree the source reads `best_heap[0]` of an empty heap and
      raises, which is `None` here. */
  function Query(pts: seq<Point>, m: nat, t: Tree, target: Point, k: nat): (r: Option<seq<nat>>)
    requires Dims(pts, m) && |target| == m && Ordered(pts, m, t)
    ensures r.None? <==> k == 0 && t != Empty
    ensures r.Some? ==> |r.value| <= k
  {
    if k == 0 then (if t == Empty then Some([]) else None)
    else Some(Idx(SortBy(Search(pts, m, t, target, k, []), EntryLe)))
  }

  /** `SimpleKDTree(data)`: the tree over all indices `0..n-1`, starting at depth 0.
      With no points at all the feature matrix is the one-dimensional empty array, so
      unpacking its shape into `n, m` raises and no tree is built. */
  function NewTree(pts: seq<Point>, m: nat): (r: Option<Tree>)
    requires m > 0
    ensures r.None? <==> |pts| == 0
    ensures r.Some? ==> r.value.Node?
  {
    if |pts| == 0 then None else Some(Build(pts, m, Range(|pts|), 0))
  }

  /** Every collected entry is a visited point with its true distance. */
  ghost predicate Truthful(pts: seq<Point>, target: Point, h: seq<Entry>, seen: set<nat>) {
    forall e :: e in h ==> e.index in seen && e.dist == Dist(pts, target, e.index)
  }

  /** While the collection is not full it holds every visited point. */
  ghost predicate Complete(k: nat, h: seq<Entry>, seen: set<nat>) {
    |h| < k ==> forall j :: j in seen ==> j in Idx(h)
  }

  /** No visited point left out is closer than a collected one. */
  ghost predicate Dominated(pts: seq<Point>, target: Point, h: seq<Entry>, seen: set<nat>) {
    forall j, e :: j in seen && j !in Idx(h) && e in h ==> e.dist <= Dist(pts, target, j)
  }

  /** What the collection knows after visiting the indices in `seen`: at most `k`
      distinct entries, each true, complete while not full, and the closest seen. */
  ghost predicate Collected(pts: seq<Point>, target: Point, k: nat, h: seq<Entry>, seen: set<nat>) {
    && |h| <= k
    && Distinct(Idx(h))
    && Truthful(pts, target, h, seen)
    && Complete(k, h, seen)
    && Dominated(pts, target, h, seen)
  }

  lemma InIdx(h: seq<Entry>, j: nat)
    ensures j in Idx(h) <==> exists e :: e in h && e.index == j
  {
    if j in Idx(h) {
      var p :| 0 <= p < |h| && Idx(h)[p] == j;
      assert h[p] in h;
    }
  }

  /** Pushing while the collection is not full. */
  lemma PushCollects(pts: seq<Point>, target: Point, k: nat, h: seq<Entry>, seen: set<nat>, i: nat)
    requires 1 <= k && Collected(pts, target, k, h, seen) && i !in seen && |h| < k
    ensures Collected(pts, target, k, h + [Entry(Dist(pts, target, i), i)], seen + {i})
  {
    var r := h + [Entry(Dist(pts, target, i), i)];
    InIdx(h, i);
    assert Idx(r) == Idx(h) + [i];
    forall j | j in seen + {i} ensures j in Idx(r) {
      if j != i {
        assert j in Idx(h);
      }
    }
  }

  /** Replacing the worst entry by a point not yet collected keeps indices distinct. */
  lemma ReplaceDistinct(h: seq<Entry>, w: nat, e: Entry)
    requires w < |h| && Distinct(Idx(h)) && e.index !in Idx(h)
    ensures Distinct(Idx(h[w := e]))
  {
    var r := h[w := e];
    assert Idx(r) == Idx(h)[w := e.index];
    forall p, q | 0 <= p < q < |r| ensures Idx(r)[p] != Idx(r)[q] {
      assert Idx(h)[p] != Idx(h)[q];
    }
  }

  /** After replacing the worst entry, a visited point outside the collection is either
      the evicted one or was already outside it. */
  lemma ReplaceOutside(h: seq<Entry>, w: nat, e: Entry, j: nat)
    requires w < |h| && j !in Idx(h[w := e])
    ensures j == h[w].index || j !in Idx(h)
  {
    var r := h[w := e];
    forall p | 0 <= p < |h| && p != w ensures Idx(h)[p] != j {
      assert Idx(r)[p] == Idx(h)[p];
    }
  }

  lemma ReplaceTruthful(pts: seq<Point>, target: Point, h: seq<Entry>, seen: set<nat>, w: nat, i: nat)
    requires Truthful(pts, target, h, seen) && w < |h|
    ensures Truthful(pts, target, h[w := Entry(Dist(pts, target, i), i)], seen + {i})
  {
    var r := h[w := Entry(Dist(pts, target, i), i)];
    forall x | x in r ensures x.index in seen + {i} && x.dist == Dist(pts, target, x.index) {
      var q :| 0 <= q < |r| && r[q] == x;
      if q != w {
        assert x == h[q];
      }
    }
  }

  lemma ReplaceDominated(pts: seq<Point>, target: Point, h: seq<Entry>, seen: set<nat>, i: nat)
    requires Truthful(pts, target, h, seen) && Dominated(pts, target, h, seen) && |h| > 0
    requires Dist(pts, target, i) < h[WorstPos(h)].dist
    ensures Dominated(pts, target, h[WorstPos(h) := Entry(Dist(pts, target, i), i)], seen + {i})
  {
    var w := WorstPos(h);
    WorstPosMax(h);
    var e := Entry(Dist(pts, target, i), i);
    var r := h[w := e];
    forall j, x | j in seen + {i} && j !in Idx(r) && x in r ensures x.dist <= Dist(pts, target, j) {
      assert j != i by {
        assert Idx(r)[w] == i;
      }
      var q :| 0 <= q < |r| && r[q] == x;
      assert x.dist <= h[w].dist by {
        if q != w {
          assert x == h[q];
        }
      }
      ReplaceOutside(h, w, e, j);
      assert h[w] in h;
    }
  }

  /** Replacing the worst entry by a strictly closer point. */
  lemma ReplaceCollects(pts: seq<Point>, target: Point, k: nat, h: seq<Entry>, seen: set<nat>, i: nat)
    requires 1 <= k && Collected(pts, target, k, h, seen) && i !in seen && |h| == k
    requires Dist(pts, target, i) < h[WorstPos(h)].dist
    ensures Collected(pts, target, k, h[WorstPos(h) := Entry(Dist(pts, target, i), i)], seen + {i})
  {
    InIdx(h, i);
    ReplaceDistinct(h, WorstPos(h), Entry(Dist(pts, target, i), i));
    ReplaceTruthful(pts, target, h, seen, WorstPos(h), i);
    ReplaceDominated(pts, target, h, seen, i);
  }

  /** Visiting more points keeps every collected entry a visited one. */
  lemma TruthfulGrows(pts: seq<Point>, target: Point, h: seq<Entry>, seen: set<nat>, i: nat)
    requires Truthful(pts, target, h, seen)
    ensures Truthful(pts, target, h, seen + {i})
  {
  }

  /** A point at least as far as the worst collected entry may stay outside. */
  lemma RejectDominated(pts: seq<Point>, target: Point, h: seq<Entry>, seen: set<nat>, i: nat)
    requires Dominated(pts, target, h, seen) && |h| > 0
    requires h[WorstPos(h)].dist <= Dist(pts, target, i)
    ensures Dominated(pts, target, h, seen + {i})
  {
    WorstPosMax(h);
    forall j, x | j in seen + {i} && j !in Idx(h) && x in h ensures x.dist <= Dist(pts, target, j) {
      var q :| 0 <= q < |h| && h[q] == x;
    }
  }

  /** Keeping a full collection when the new point is not strictly closer. */
  lemma RejectCollects(pts: seq<Point>, target: Point, k: nat, h: seq<Entry>, seen: set<nat>, i: nat)
    requires 1 <= k && Collected(pts, target, k, h, seen) && i !in seen && |h| == k
    requires h[WorstPos(h)].dist <= Dist(pts, target, i)
    ensures Collected(pts, target, k, h, seen + {i})
  {
    TruthfulGrows(pts, target, h, seen, i);
    RejectDominated(pts, target, h, seen, i);
  }

  /** Offering a newly visited point keeps the collection invariant. */
  lemma OfferCollects(pts: seq<Point>, target: Point, k: nat, h: seq<Entry>, seen: set<nat>, i: nat)
    requires 1 <= k && Collected(pts, target, k, h, seen) && i !in seen
    ensures Collected(pts, target, k, Offer(h, Entry(Dist(pts, target, i), i), k), seen + {i})
  {
    if |h| < k {
      PushCollects(pts, target, k, h, seen, i);
    } else if Dist(pts, target, i) < h[WorstPos(h)].dist {
      ReplaceCollects(pts, target, k, h, seen, i);
    } else {
      RejectCollects(pts, target, k, h, seen, i);
    }
  }

  /** A far subtree whose points all lie at least `bound` away may be skipped once the
      collection is full and its worst entry is no farther than `bound`. */
  lemma PruneCollects(pts: seq<Point>, target: Point, k: nat, h: seq<Entry>, seen: set<nat>, far: set<nat>, bound: real, all: set<nat>)
    requires 1 <= k && Collected(pts, target, k, h, seen) && |h| == k && seen !! far
    requires all == seen + far
    requires h[WorstPos(h)].dist <= bound
    requires forall j :: j in far ==> bound <= Dist(pts, target, j)
    ensures Collected(pts, target, k, h, all)
  {
    WorstPosMax(h);
    forall e | e in h ensures e.dist <= bound {
      var q :| 0 <= q < |h| && h[q] == e;
    }
  }

  /** Every point on the far side of a splitting plane is at least the plane's distance
      from the target. */
  lemma FarSide(pts: seq<Point>, m: nat, target: Point, i: nat, axis: nat, j: nat)
    requires Dims(pts, m) && |target| == m && i < |pts| && j < |pts| && axis < m
    requires target[axis] - pts[i][axis] < 0.0 ==> pts[i][axis] <= pts[j][axis]
    requires target[axis] - pts[i][axis] >= 0.0 ==> pts[j][axis] <= pts[i][axis]
    ensures Square(target[axis] - pts[i][axis]) <= Dist(pts, target, j)
  {
    SqDistCoordinate(pts[j], target, axis);
    assert Dist(pts, target, j) == SqDist(pts[j], target);
    var a, b := target[axis] - pts[i][axis], pts[j][axis] - target[axis];
    if a < 0.0 {
      SquareMono(-a, b);
      assert Square(a) == Square(-a);
    } else {
      SquareMono(a, -b);
      assert Square(b) == Square(-b);
    }
  }

  /** The far subtree of a node lies entirely beyond the node's splitting plane. */
  lemma FarBound(pts: seq<Point>, m: nat, i: nat, axis: nat, l: Tree, rt: Tree, target: Point)
    requires Dims(pts, m) && |target| == m && Ordered(pts, m, Node(i, axis, l, rt))
    ensures var diff := target[axis] - pts[i][axis];
      forall j :: j in Indices(if diff < 0.0 then rt else l) ==> Square(diff) <= Dist(pts, target, j)
  {
    var diff := target[axis] - pts[i][axis];
    OrderedIndicesInRange(pts, m, Node(i, axis, l, rt));
    forall j | j in Indices(if diff < 0.0 then rt else l) ensures Square(diff) <= Dist(pts, target, j) {
      assert j in Indices(Node(i, axis, l, rt));
      assert Coord(pts, i, axis) == pts[i][axis] && Coord(pts, j, axis) == pts[j][axis];
      FarSide(pts, m, target, i, axis, j);
    }
  }

  /** How the visited set grows while `_search` walks a node: the node, then one
      subtree, then the other, never visiting an index twice. */
  lemma NodeSides(pts: seq<Point>, m: nat, i: nat, axis: nat, l: Tree, rt: Tree, seen: set<nat>, all: set<nat>, close: Tree, far: Tree)
    requires Ordered(pts, m, Node(i, axis, l, rt))
    requires seen !! Indices(Node(i, axis, l, rt)) && all == seen + Indices(Node(i, axis, l, rt))
    requires (close == l && far == rt) || (close == rt && far == l)
    ensures Ordered(pts, m, close) && Ordered(pts, m, far)
    ensures seen + {i} !! Indices(close)
    ensures seen + {i} + Indices(close) !! Indices(far)
    ensures all == seen + {i} + Indices(close) + Indices(far)
  {
  }

  /** What `_search` returns at a node: the close subtree's result, or the far
      subtree's walk continuing from it when the far side may still hold a closer point. */
  lemma SearchNode(pts: seq<Point>, m: nat, i: nat, axis: nat, l: Tree, rt: Tree, target: Point, k: nat, h: seq<Entry>)
    requires Dims(pts, m) && |target| == m && Ordered(pts, m, Node(i, axis, l, rt))
    requires 1 <= k && |h| <= k
    ensures var diff := target[axis] - pts[i][axis];
      var close := if diff < 0.0 then l else rt;
      var far := if diff < 0.0 then rt else l;
      var h2 := Search(pts, m, close, target, k, Offer(h, Entry(SqDist(pts[i], target), i), k));
      && (|h2| < k || Square(diff) < h2[WorstPos(h2)].dist ==> Search(pts, m, Node(i, axis, l, rt), target, k, h) == Search(pts, m, far, target, k, h2))
      && (!(|h2| < k || Square(diff) < h2[WorstPos(h2)].dist) ==> Search(pts, m, Node(i, axis, l, rt), target, k, h) == h2)
  {
    var diff := target[axis] - pts[i][axis];
    var close := if diff < 0.0 then l else rt;
    var far := if diff < 0.0 then rt else l;
    var h2 := Search(pts, m, close, target, k, Offer(h, Entry(SqDist(pts[i], target), i), k));
    if |h2| < k || Square(diff) < h2[WorstPos(h2)].dist {
      assert Search(pts, m, Node(i, axis, l, rt), target, k, h) == Search(pts, m, far, target, k, h2);
    } else {
      assert Search(pts, m, Node(i, axis, l, rt), target, k, h) == h2;
    }
  }

  /** One node of `_search`: given what the walk of the close subtree and (when it is
      taken) of the far subtree establish, the node as a whole keeps the collection
      invariant for everything it covers. */
  lemma NodeCollects(pts: seq<Point>, m: nat, i: nat, axis: nat, l: Tree, rt: Tree, target: Point, k: nat, h: seq<Entry>, seen: set<nat>, all: set<nat>)
    requires Dims(pts, m) && |target| == m && Ordered(pts, m, Node(i, axis, l, rt))
    requires 1 <= k && |h| <= k
    requires seen !! Indices(Node(i, axis, l, rt)) && all == seen + Indices(Node(i, axis, l, rt))
    requires var diff := target[axis] - pts[i][axis];
      var close := if diff < 0.0 then l else rt;
      var far := if diff < 0.0 then rt else l;
      var h2 := Search(pts, m, close, target, k, Offer(h, Entry(SqDist(pts[i], target), i), k));
      && Collected(pts, target, k, h2, seen + {i} + Indices(close))
      && (|h2| < k || Square(diff) < h2[WorstPos(h2)].dist
          ==> Collected(pts, target, k, Search(pts, m, far, target, k, h2), all))
    ensures Collected(pts, target, k, Search(pts, m, Node(i, axis, l, rt), target, k, h), all)
  {
    var diff := target[axis] - pts[i][axis];
    var close := if diff < 0.0 then l else rt;
    var far := if diff < 0.0 then rt else l;
    var h2 := Search(pts, m, close, target, k, Offer(h, Entry(SqDist(pts[i], target), i), k));
    SearchNode(pts, m, i, axis, l, rt, target, k, h);
    if !(|h2| < k || Square(diff) < h2[WorstPos(h2)].dist) {
      NodeSides(pts, m, i, axis, l, rt, seen, all, close, far);
      FarBound(pts, m, i, axis, l, rt, target);
      PruneCollects(pts, target, k, h2, seen + {i} + Indices(close), Indices(far), Square(diff), all);
    }
  }

  /** `_search` over a subtree disjoint from what was visited before leaves the
      collection invariant holding for the visited points plus the whole subtree
      (`all`): the far-branch pruning never discards a point the collection needed. */
  lemma {:induction false} SearchCollects(pts: seq<Point>, m: nat, t: Tree, target: Point, k: nat, h: seq<Entry>, seen: set<nat>, all: set<nat>)
    requires Dims(pts, m) && |target| == m && Ordered(pts, m, t)
    requires 1 <= k && Collected(pts, target, k, h, seen) && seen !! Indices(t)
    requires all == seen + Indices(t)
    ensures Collected(pts, target, k, Search(pts, m, t, target, k, h), all)
    decreases t
  {
    match t
    case Empty =>
    case Node(i, axis, l, rt) =>
      var h1 := Offer(h, Entry(SqDist(pts[i], target), i), k);
      var s1 := seen + {i};
      assert Collected(pts, target, k, h1, s1) by {
        assert Entry(SqDist(pts[i], target), i) == Entry(Dist(pts, target, i), i);
        OfferCollects(pts, target, k, h, seen, i);
      }
      var diff := target[axis] - pts[i][axis];
      var close := if diff < 0.0 then l else rt;
      var far := if diff < 0.0 then rt else l;
      var s2 := s1 + Indices(close);
      NodeSides(pts, m, i, axis, l, rt, seen, all, close, far);
      SearchCollects(pts, m, close, target, k, h1, s1, s2);
      var h2 := Search(pts, m, close, target, k, h1);
      if |h2| < k || Square(diff) < h2[WorstPos(h2)].dist {
        SearchCollects(pts, m, far, target, k, h2, s2, all);
      }
      NodeCollects(pts, m, i, axis, l, rt, target, k, h, seen, all);
  }

  lemma RangeFacts(n: nat)
    ensures Distinct(Range(n))
    ensures forall j: nat :: j in Range(n) <==> j < n
  {
    forall j: nat | j < n ensures j in Range(n) {
      assert Range(n)[j] == j;
    }
  }

  lemma IdxIsMap(h: seq<Entry>)
    ensures Idx(h) == Map(EntryIndex, h)
  {
  }

  lemma EntryLeIsTotalPreorder()
    ensures TotalPreorder(EntryLe)
  {
  }

  /** The result order: sorting the collection by distance lists its distances in
      ascending order and keeps its indices. */
  lemma EntriesSorted(h: seq<Entry>)
    ensures multiset(Idx(SortBy(h, EntryLe))) == multiset(Idx(h))
    ensures Map(EntryDist, SortBy(h, EntryLe)) == SortReals(Map(EntryDist, h))
  {
    var s := SortBy(h, EntryLe);
    EntryLeIsTotalPreorder();
    SortBySorted(h, EntryLe);
    MapMultiset(EntryDist, s, h);
    assert Ascending(Map(EntryDist, s)) by {
      forall p, q | 0 <= p < q < |s| ensures Map(EntryDist, s)[p] <= Map(EntryDist, s)[q] {
        assert EntryLe(s[p], s[q]);
      }
    }
    AscendingUnique(Map(EntryDist, s), SortReals(Map(EntryDist, h)));
    IdxIsMap(s);
    IdxIsMap(h);
    MapMultiset(EntryIndex, s, h);
  }

  /** Each entry of a truthful collection carries the true distance of its index. */
  lemma TruthfulDists(pts: seq<Point>, target: Point, h: seq<Entry>, seen: set<nat>)
    requires Truthful(pts, target, h, seen)
    ensures Map(DistTo(pts, target), Idx(h)) == Map(EntryDist, h)
  {
    forall p | 0 <= p < |h| ensures Map(DistTo(pts, target), Idx(h))[p] == Map(EntryDist, h)[p] {
      assert h[p] in h;
    }
  }

  lemma TruthfulPermutation(pts: seq<Point>, target: Point, h: seq<Entry>, g: seq<Entry>, seen: set<nat>)
    requires Truthful(pts, target, h, seen) && multiset(h) == multiset(g)
    ensures Truthful(pts, target, g, seen)
  {
    SameElements(g, h);
  }

  /** After the search has visited all `n` points, the collection holds `min(k, n)` of
      them and every point it left out is at least as far as every point it kept. */
  lemma CollectedSplit(pts: seq<Point>, target: Point, k: nat, h: seq<Entry>, seen: set<nat>, u: seq<nat>)
    requires 1 <= k && Collected(pts, target, k, h, seen)
    requires Distinct(u) && forall j :: j in seen <==> j in u
    ensures multiset(u) == multiset(Idx(h)) + multiset(DropIn(u, Idx(h)))
    ensures |h| == Min(k, |u|)
    ensures forall x, y :: x in Map(EntryDist, h) && y in Map(DistTo(pts, target), DropIn(u, Idx(h))) ==> x <= y
  {
    var rest := DropIn(u, Idx(h));
    forall x | x in Idx(h) ensures x in u {
      var p :| 0 <= p < |h| && Idx(h)[p] == x;
      assert h[p] in h;
    }
    SplitAround(u, Idx(h));
    assert |u| == |multiset(u)| == |h| + |rest|;
    if |h| < k {
      assert forall x :: x in u ==> x in Idx(h);
    }
    forall x, y | x in Map(EntryDist, h) && y in Map(DistTo(pts, target), rest) ensures x <= y {
      var p :| 0 <= p < |h| && Map(EntryDist, h)[p] == x;
      var q :| 0 <= q < |rest| && Map(DistTo(pts, target), rest)[q] == y;
      assert rest[q] in rest && h[p] in h;
    }
  }

  /** The distances of the sorted collection are the smallest distances of all points,
      in ascending order. */
  lemma ResultDistances(pts: seq<Point>, target: Point, k: nat, h: seq<Entry>, seen: set<nat>, u: seq<nat>)
    requires 1 <= k && Collected(pts, target, k, h, seen)
    requires Distinct(u) && forall j :: j in seen <==> j in u
    ensures |h| <= |u|
    ensures Map<nat, real>(DistTo(pts, target), Idx(SortBy(h, EntryLe)))
      == SortReals(Map<nat, real>(DistTo(pts, target), u))[..|h|]
  {
    var D := DistTo(pts, target);
    var s := SortBy(h, EntryLe);
    var rest := DropIn(u, Idx(h));
    CollectedSplit(pts, target, k, h, seen, u);
    EntriesSorted(h);
    TruthfulDists(pts, target, h, seen);
    TruthfulPermutation(pts, target, h, s, seen);
    TruthfulDists(pts, target, s, seen);
    assert multiset(Map<nat, real>(D, u)) == multiset(Map(EntryDist, h)) + multiset(Map<nat, real>(D, rest)) by {
      MapMultiset(D, u, Idx(h) + rest);
      MapAppend(D, Idx(h), rest);
    }
    SortSplit(Map<nat, real>(D, u), Map(EntryDist, h), Map<nat, real>(D, rest));
  }

  /** The indices of the sorted collection: `min(k, n)` distinct points, and all of them
      once `k >= n`. */
  lemma SortedIndices(h: seq<Entry>, u: seq<nat>, k: nat)
    requires Distinct(u) && |h| == Min(k, |u|)
    requires multiset(u) == multiset(Idx(h)) + multiset(DropIn(u, Idx(h)))
    ensures var r := Idx(SortBy(h, EntryLe));
      && |r| == Min(k, |u|)
      && Distinct(r)
      && (forall p :: 0 <= p < |r| ==> r[p] in u)
      && (k >= |u| ==> multiset(r) == multiset(u))
  {
    var r := Idx(SortBy(h, EntryLe));
    EntriesSorted(h);
    forall x ensures multiset(Idx(h))[x] <= 1 {
      DistinctMultiplicity(u, x);
    }
    DistinctFromMultiplicity(Idx(h));
    DistinctPermutation(Idx(h), r);
    forall p | 0 <= p < |r| ensures r[p] in u {
      assert r[p] in multiset(Idx(h));
      assert r[p] in multiset(u);
    }
    if k >= |u| {
      assert |u| == |multiset(u)| == |h| + |multiset(DropIn(u, Idx(h)))|;
    }
  }

  lemma ResultIndices(pts: seq<Point>, target: Point, k: nat, h: seq<Entry>, seen: set<nat>, u: seq<nat>)
    requires 1 <= k && Collected(pts, target, k, h, seen)
    requires Distinct(u) && forall j :: j in seen <==> j in u
    ensures var r := Idx(SortBy(h, EntryLe));
      && |r| == Min(k, |u|)
      && Distinct(r)
      && (forall p :: 0 <= p < |r| ==> r[p] in u)
      && (k >= |u| ==> multiset(r) == multiset(u))
  {
    CollectedSplit(pts, target, k, h, seen, u);
    SortedIndices(h, u, k);
  }

  /** A prefix of an ascending sequence is ascending. */
  lemma AscendingPrefix(s: seq<real>, n: nat)
    requires Ascending(s) && n <= |s|
    ensures Ascending(s[..n])
  {
    forall p, q | 0 <= p < q < n ensures s[..n][p] <= s[..n][q] {
      assert s[..n][p] == s[p] && s[..n][q] == s[q];
    }
  }

  /** A collection that is exact for all points `0..n-1`, sorted by distance, is the
      brute-force top-k. */
  lemma CollectedExact(pts: seq<Point>, target: Point, k: nat, h: seq<Entry>, seen: set<nat>)
    requires 1 <= k && Collected(pts, target, k, h, seen)
    requires forall j: nat :: j in seen <==> j < |pts|
    ensures var r := Idx(SortBy(h, EntryLe));
      && |r| == Min(k, |pts|)
      && Distinct(r)
      && (forall p :: 0 <= p < |r| ==> r[p] < |pts|)
      && Ascending(Map<nat, real>(DistTo(pts, target), r))
      && Map<nat, real>(DistTo(pts, target), r)
         == SortReals(Map<nat, real>(DistTo(pts, target), Range(|pts|)))[..|r|]
      && (k >= |pts| ==> multiset(r) == multiset(Range(|pts|)))
  {
    var u := Range(|pts|);
    RangeFacts(|pts|);
    ResultDistances(pts, target, k, h, seen, u);
    ResultIndices(pts, target, k, h, seen, u);
    AscendingPrefix(SortReals(Map<nat, real>(DistTo(pts, target), u)), |h|);
  }

  /** The search from the root of any valid tree over the points `0..n-1`. */
  lemma SearchExact(pts: seq<Point>, m: nat, t: Tree, target: Point, k: nat)
    requires Dims(pts, m) && |target| == m && Ordered(pts, m, t) && 1 <= k
    requires forall j: nat :: j in Indices(t) <==> j < |pts|
    ensures var r := Idx(SortBy(Search(pts, m, t, target, k, []), EntryLe));
      && |r| == Min(k, |pts|)
      && Distinct(r)
      && (forall p :: 0 <= p < |r| ==> r[p] < |pts|)
      && Ascending(Map<nat, real>(DistTo(pts, target), r))
      && Map<nat, real>(DistTo(pts, target), r)
         == SortReals(Map<nat, real>(DistTo(pts, target), Range(|pts|)))[..|r|]
      && (k >= |pts| ==> multiset(r) == multiset(Range(|pts|)))
  {
    SearchCollects(pts, m, t, target, k, [], {}, Indices(t));
    CollectedExact(pts, target, k, Search(pts, m, t, target, k, []), Indices(t));
  }

  /** `query(target, k)` on a tree built from all `n` points is an exact k-nearest-
      neighbour search: it returns `min(k, n)` distinct point indices, closest first,
      whose distances are exactly the `min(k, n)` smallest distances of all points --
      a brute-force top-k, up to the order among equal distances. With `k >= n` every
      point comes back. There is a tree exactly when there is a point. */
  lemma QueryExact(pts: seq<Point>, m: nat, target: Point, k: nat)
    requires m > 0 && Dims(pts, m) && |target| == m && k >= 1
    ensures NewTree(pts, m).Some? <==> |pts| > 0
    ensures NewTree(pts, m).Some? ==> Ordered(pts, m, NewTree(pts, m).value)
    ensures NewTree(pts, m).Some? ==>
      var r := Query(pts, m, NewTree(pts, m).value, target, k);
      && r.Some?
      && |r.value| == Min(k, |pts|)
      && Distinct(r.value)
      && (forall p :: 0 <= p < |r.value| ==> r.value[p] < |pts|)
      && Ascending(Map<nat, real>(DistTo(pts, target), r.value))
      && Map<nat, real>(DistTo(pts, target), r.value)
         == SortReals(Map<nat, real>(DistTo(pts, target), Range(|pts|)))[..|r.value|]
      && (k >= |pts| ==> multiset(r.value) == multiset(Range(|pts|)))
  {
    if |pts| > 0 {
      RangeFacts(|pts|);
      BuildValid(pts, m, Range(|pts|), 0);
      BuildContents(pts, m, Range(|pts|), 0);
      SearchExact(pts, m, NewTree(pts, m).value, target, k);
    }
  }
}
