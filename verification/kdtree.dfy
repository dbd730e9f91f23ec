/** The KD-tree of `SimpleKDTree` (similarity_web.py, and the identical class in
    data/kline_similarity_search.py): an inductive tree whose nodes name a point by its
    index into the feature matrix and carry the axis they split on. */
module KdTree {
  import opened Seqs
  import opened Sorting

  /** One feature vector. */
  type Point = seq<real>

  /** `None` of the source is `Empty`; a `Node` owns its two subtrees. */
  datatype Tree = Empty | Node(index: nat, axis: nat, left: Tree, right: Tree)

  function Indices(t: Tree): set<nat> {
    match t
    case Empty => {}
    case Node(i, _, l, r) => {i} + Indices(l) + Indices(r)
  }

  function Size(t: Tree): nat {
    match t
    case Empty => 0
    case Node(_, _, l, r) => 1 + Size(l) + Size(r)
  }

  /** Every point has `m` coordinates (`self.n, self.m = data.shape`). */
  ghost predicate Dims(pts: seq<Point>, m: nat) {
    forall i :: 0 <= i < |pts| ==> |pts[i]| == m
  }

  /** `self.data[i][axis]`, with a harmless default outside the matrix. */
  function Coord(pts: seq<Point>, i: nat, axis: nat): real {
    if i < |pts| && axis < |pts[i]| then pts[i][axis] else 0.0
  }

  /** The sort key of one level: compare two point indices by their `axis` coordinate. */
  function AxisLe(pts: seq<Point>, axis: nat): (nat, nat) -> bool {
    (i: nat, j: nat) => Coord(pts, i, axis) <= Coord(pts, j, axis)
  }

  lemma AxisLeIsTotalPreorder(pts: seq<Point>, axis: nat)
    ensures TotalPreorder(AxisLe(pts, axis))
  {
  }

  /** `_build_tree`: sort the indices (stably) by the coordinate `depth % m`, make the
      median the node and build the two halves one level deeper. An empty index list
      gives no node. `BuildContents` states what the tree holds. */
  function Build(pts: seq<Point>, m: nat, idxs: seq<nat>, depth: nat): Tree
    requires m > 0
    decreases |idxs|
  {
    if |idxs| == 0 then Empty
    else
      var sorted := SortBy<nat>(idxs, AxisLe(pts, depth % m));
      var median := |sorted| / 2;
      Node(sorted[median], depth % m,
           Build(pts, m, sorted[..median], depth + 1),
           Build(pts, m, sorted[median + 1..], depth + 1))
  }

  /** The built tree holds exactly the given indices, one node per entry, and an empty
      index list gives no node rather than an error. */
  lemma {:induction false} BuildContents(pts: seq<Point>, m: nat, idxs: seq<nat>, depth: nat)
    requires m > 0
    ensures forall i :: i in Indices(Build(pts, m, idxs, depth)) <==> i in idxs
    ensures Size(Build(pts, m, idxs, depth)) == |idxs|
    ensures idxs == [] <==> Build(pts, m, idxs, depth) == Empty
    decreases |idxs|
  {
    if |idxs| > 0 {
      var sorted := SortBy<nat>(idxs, AxisLe(pts, depth % m));
      var median := |sorted| / 2;
      var lo, hi := sorted[..median], sorted[median + 1..];
      BuildContents(pts, m, lo, depth + 1);
      BuildContents(pts, m, hi, depth + 1);
      SplitMembers(idxs, sorted, median);
      assert |lo| + 1 + |hi| == |idxs|;
    }
  }

  /** Cutting a rearrangement of `idxs` around position `median` loses no index. */
  lemma SplitMembers(idxs: seq<nat>, sorted: seq<nat>, median: nat)
    requires multiset(sorted) == multiset(idxs) && median < |sorted|
    ensures forall i :: i in idxs <==> i in sorted[..median] || i == sorted[median] || i in sorted[median + 1..]
  {
    assert sorted == sorted[..median] + [sorted[median]] + sorted[median + 1..];
    forall i ensures i in idxs <==> i in sorted {
      assert i in idxs <==> i in multiset(idxs);
      assert i in sorted <==> i in multiset(sorted);
    }
  }

  /** The search-tree shape the query relies on: each index in the matrix and used
      once, each axis a coordinate, everything left of a node at most its axis value
      and everything right of it at least that value. */
  ghost predicate Ordered(pts: seq<Point>, m: nat, t: Tree) {
    match t
    case Empty => true
    case Node(i, axis, l, r) =>
      && i < |pts| && axis < m
      && i !in Indices(l) && i !in Indices(r) && Indices(l) !! Indices(r)
      && (forall j :: j in Indices(l) ==> Coord(pts, j, axis) <= Coord(pts, i, axis))
      && (forall j :: j in Indices(r) ==> Coord(pts, i, axis) <= Coord(pts, j, axis))
      && Ordered(pts, m, l) && Ordered(pts, m, r)
  }

  /** A node at depth `d` splits on axis `d % m`. */
  ghost predicate AxesCycle(m: nat, t: Tree, depth: nat) {
    match t
    case Empty => true
    case Node(_, axis, l, r) =>
      m > 0 && axis == depth % m && AxesCycle(m, l, depth + 1) && AxesCycle(m, r, depth + 1)
  }

  lemma {:induction false} OrderedIndicesInRange(pts: seq<Point>, m: nat, t: Tree)
    requires Ordered(pts, m, t)
    ensures forall j :: j in Indices(t) ==> j < |pts|
  {
    match t
    case Empty =>
    case Node(_, _, l, r) =>
      OrderedIndicesInRange(pts, m, l);
      OrderedIndicesInRange(pts, m, r);
  }

  /** The facts the median split gives on a sorted, duplicate-free index list. */
  lemma MedianSplit(pts: seq<Point>, axis: nat, s: seq<nat>)
    requires |s| > 0 && Distinct(s)
    requires SortedBy<nat>(s, AxisLe(pts, axis))
    ensures Distinct(s[..|s| / 2]) && Distinct(s[|s| / 2 + 1..])
    ensures s[|s| / 2] !in s[..|s| / 2] && s[|s| / 2] !in s[|s| / 2 + 1..]
    ensures forall j :: j in s[..|s| / 2] ==> j !in s[|s| / 2 + 1..]
    ensures forall j :: j in s[..|s| / 2] ==> Coord(pts, j, axis) <= Coord(pts, s[|s| / 2], axis)
    ensures forall j :: j in s[|s| / 2 + 1..] ==> Coord(pts, s[|s| / 2], axis) <= Coord(pts, j, axis)
  {
    var med := |s| / 2;
    var lo, hi := s[..med], s[med + 1..];
    forall a, b | 0 <= a < b < |lo| ensures lo[a] != lo[b] {
      assert lo[a] == s[a] && lo[b] == s[b];
    }
    forall a, b | 0 <= a < b < |hi| ensures hi[a] != hi[b] {
      assert hi[a] == s[med + 1 + a] && hi[b] == s[med + 1 + b];
    }
    forall j | j in lo
      ensures j != s[med] && j !in hi && Coord(pts, j, axis) <= Coord(pts, s[med], axis)
    {
      var p :| 0 <= p < |lo| && lo[p] == j;
      assert s[p] == j;
      assert AxisLe(pts, axis)(s[p], s[med]);
      forall q | 0 <= q < |hi| ensures hi[q] != j {
        assert hi[q] == s[med + 1 + q];
      }
    }
    forall j | j in hi
      ensures j != s[med] && Coord(pts, s[med], axis) <= Coord(pts, j, axis)
    {
      var p :| 0 <= p < |hi| && hi[p] == j;
      assert s[med + 1 + p] == j;
      assert AxisLe(pts, axis)(s[med], s[med + 1 + p]);
    }
  }

  /** What the median split of one level gives its two halves. */
  lemma SplitFacts(pts: seq<Point>, axis: nat, idxs: seq<nat>, sorted: seq<nat>, lo: seq<nat>, hi: seq<nat>)
    requires |idxs| > 0 && Distinct(idxs)
    requires forall i :: i in idxs ==> i < |pts|
    requires sorted == SortBy<nat>(idxs, AxisLe(pts, axis))
    requires lo == sorted[..|sorted| / 2] && hi == sorted[|sorted| / 2 + 1..]
    ensures Distinct(lo) && Distinct(hi)
    ensures sorted[|sorted| / 2] < |pts|
    ensures forall i :: i in lo ==> i < |pts|
    ensures forall i :: i in hi ==> i < |pts|
    ensures sorted[|sorted| / 2] !in lo && sorted[|sorted| / 2] !in hi
    ensures forall j :: j in lo ==> j !in hi
    ensures forall j :: j in lo ==> Coord(pts, j, axis) <= Coord(pts, sorted[|sorted| / 2], axis)
    ensures forall j :: j in hi ==> Coord(pts, sorted[|sorted| / 2], axis) <= Coord(pts, j, axis)
  {
    var median := |sorted| / 2;
    DistinctPermutation(idxs, sorted);
    assert SortedBy<nat>(sorted, AxisLe(pts, axis)) by {
      AxisLeIsTotalPreorder(pts, axis);
      SortBySorted<nat>(idxs, AxisLe(pts, axis));
    }
    MedianSplit(pts, axis, sorted);
    PartsInRange(pts, idxs, sorted, median, lo, hi);
  }

  /** Both halves and the median of a rearrangement of in-range indices are in range. */
  lemma PartsInRange(pts: seq<Point>, idxs: seq<nat>, sorted: seq<nat>, median: nat, lo: seq<nat>, hi: seq<nat>)
    requires multiset(sorted) == multiset(idxs) && median < |sorted|
    requires lo == sorted[..median] && hi == sorted[median + 1..]
    requires forall i :: i in idxs ==> i < |pts|
    ensures sorted[median] < |pts|
    ensures forall i :: i in lo ==> i < |pts|
    ensures forall i :: i in hi ==> i < |pts|
  {
    SameElements(idxs, sorted);
    forall i | i in lo ensures i < |pts| {
      var p :| 0 <= p < |lo| && lo[p] == i;
      assert sorted[p] in sorted;
    }
    forall i | i in hi ensures i < |pts| {
      var p :| 0 <= p < |hi| && hi[p] == i;
      assert sorted[median + 1 + p] in sorted;
    }
    assert sorted[median] in sorted;
  }


  /** A node over two ordered subtrees whose contents lie on the right sides is ordered. */
  lemma NodeOrdered(pts: seq<Point>, m: nat, i: nat, axis: nat, l: Tree, r: Tree, lo: seq<nat>, hi: seq<nat>)
    requires Ordered(pts, m, l) && Ordered(pts, m, r)
    requires i < |pts| && axis < m
    requires forall j :: j in Indices(l) <==> j in lo
    requires forall j :: j in Indices(r) <==> j in hi
    requires i !in lo && i !in hi
    requires forall j :: j in lo ==> j !in hi
    requires forall j :: j in lo ==> Coord(pts, j, axis) <= Coord(pts, i, axis)
    requires forall j :: j in hi ==> Coord(pts, i, axis) <= Coord(pts, j, axis)
    ensures Ordered(pts, m, Node(i, axis, l, r))
  {
  }

  /** A node built at depth `d` splits on axis `d % m`, all the way down. */
  lemma {:induction false} BuildAxes(pts: seq<Point>, m: nat, idxs: seq<nat>, depth: nat)
    requires m > 0
    ensures AxesCycle(m, Build(pts, m, idxs, depth), depth)
    decreases |idxs|
  {
    if |idxs| > 0 {
      var sorted := SortBy<nat>(idxs, AxisLe(pts, depth % m));
      var median := |sorted| / 2;
      BuildAxes(pts, m, sorted[..median], depth + 1);
      BuildAxes(pts, m, sorted[median + 1..], depth + 1);
    }
  }

  /** Building from distinct in-range indices yields an ordered tree whose axes cycle
      with depth. */
  lemma {:induction false} BuildValid(pts: seq<Point>, m: nat, idxs: seq<nat>, depth: nat)
    requires m > 0
    requires Distinct(idxs)
    requires forall i :: i in idxs ==> i < |pts|
    ensures Ordered(pts, m, Build(pts, m, idxs, depth))
    decreases |idxs|
  {
    if |idxs| > 0 {
      var axis := depth % m;
      var sorted := SortBy<nat>(idxs, AxisLe(pts, axis));
      var median := |sorted| / 2;
      var lo, hi := sorted[..median], sorted[median + 1..];
      var l, r := Build(pts, m, lo, depth + 1), Build(pts, m, hi, depth + 1);
      var t := Node(sorted[median], axis, l, r);
      assert Ordered(pts, m, t) by {
        SplitFacts(pts, axis, idxs, sorted, lo, hi);
        BuildValid(pts, m, lo, depth + 1);
        BuildValid(pts, m, hi, depth + 1);
        BuildContents(pts, m, lo, depth + 1);
        BuildContents(pts, m, hi, depth + 1);
        NodeOrdered(pts, m, sorted[median], axis, l, r, lo, hi);
      }
      assert Build(pts, m, idxs, depth) == t;
    }
  }
}
