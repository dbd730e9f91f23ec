/** `dtw_distance` (similarity_web.py:87-97, data/kline_similarity_search.py:88-104):
    dynamic time warping over an (n+1) x (m+1) table whose borders are infinite except
    the origin. The table is specified cell by cell (`Cell`), computed row by row
    (`Distance`), and shown to be non-negative, zero on equal inputs and symmetric. */
module Dtw {

  /** A table entry: a finite cost or numpy's `inf`. */
  datatype Cost = Fin(val: real) | Inf

  function Abs(x: real): real {
    if x < 0.0 then -x else x
  }

  /** `cost + x` with `inf` absorbing. */
  function Plus(c: real, x: Cost): Cost {
    match x
    case Inf => Inf
    case Fin(v) => Fin(c + v)
  }

  function Min2(x: Cost, y: Cost): (r: Cost)
    ensures r == x || r == y
    ensures r.Inf? <==> x.Inf? && y.Inf?
    ensures r.Fin? && x.Fin? ==> r.val <= x.val
    ensures r.Fin? && y.Fin? ==> r.val <= y.val
  {
    match (x, y)
    case (Inf, _) => y
    case (_, Inf) => x
    case (Fin(u), Fin(v)) => if u <= v then x else y
  }

  /** `min(up, left, diagonal)` of the three neighbours. */
  function Min3(x: Cost, y: Cost, z: Cost): (r: Cost)
    ensures r == x || r == y || r == z
    ensures r.Inf? <==> x.Inf? && y.Inf? && z.Inf?
  {
    Min2(Min2(x, y), z)
  }

  /** Entry `dtw[i, j]` of the table for `s1 = a`, `s2 = b`: zero at the origin,
      infinite on the rest of row 0 and column 0, and otherwise the local cost
      `|a[i-1] - b[j-1]|` plus the cheapest of the three neighbours. Every entry is
      finite exactly when `i` and `j` are both zero or both positive, and never
      negative. */
  function Cell(a: seq<real>, b: seq<real>, i: nat, j: nat): (c: Cost)
    requires i <= |a| && j <= |b|
    ensures c.Fin? <==> (i == 0 <==> j == 0)
    ensures c.Fin? ==> c.val >= 0.0
    decreases i + j, 1
  {
    if i == 0 && j == 0 then Fin(0.0)
    else if i == 0 || j == 0 then Inf
    else Inner(a, b, i, j)
  }

  /** An entry off the borders. */
  function Inner(a: seq<real>, b: seq<real>, i: nat, j: nat): (c: Cost)
    requires 0 < i <= |a| && 0 < j <= |b|
    ensures c.Fin? && c.val >= 0.0
    decreases i + j, 0
  {
    Plus(Abs(a[i - 1] - b[j - 1]), Min3(Cell(a, b, i - 1, j), Cell(a, b, i, j - 1), Cell(a, b, i - 1, j - 1)))
  }

  /** The recurrence of an inner entry. */
  lemma CellStep(a: seq<real>, b: seq<real>, i: nat, j: nat)
    requires 0 < i <= |a| && 0 < j <= |b|
    ensures Cell(a, b, i, j)
      == Plus(Abs(a[i - 1] - b[j - 1]), Min3(Cell(a, b, i - 1, j), Cell(a, b, i, j - 1), Cell(a, b, i - 1, j - 1)))
  {
  }

  /** `row` holds the first `|row|` entries of table row `i`. */
  ghost predicate RowPrefix(a: seq<real>, b: seq<real>, i: nat, row: seq<Cost>) {
    i <= |a| && |row| <= |b| + 1 && forall j :: 0 <= j < |row| ==> row[j] == Cell(a, b, i, j)
  }

  lemma RowExtend(a: seq<real>, b: seq<real>, i: nat, row: seq<Cost>, v: Cost)
    requires RowPrefix(a, b, i, row) && |row| <= |b| && v == Cell(a, b, i, |row|)
    ensures RowPrefix(a, b, i, row + [v])
  {
    var r := row + [v];
    forall j | 0 <= j < |r| ensures r[j] == Cell(a, b, i, j) {
      if j < |row| {
        assert r[j] == row[j];
      }
    }
  }

  /** `dtw[n, m]`. */
  function Value(a: seq<real>, b: seq<real>): Cost {
    Cell(a, b, |a|, |b|)
  }

  /** `dtw_distance(s1, s2)`: fills the table one row at a time, keeping only the
      previous row, and returns the corner entry. */
  method Distance(a: seq<real>, b: seq<real>) returns (d: Cost)
    ensures d == Value(a, b)
  {
    var n, m := |a|, |b|;
    var prev: seq<Cost> := [Fin(0.0)] + seq(m, _ => Inf);
    assert RowPrefix(a, b, 0, prev);
    var i := 1;
    while i <= n
      invariant 1 <= i <= n + 1
      invariant |prev| == m + 1
      invariant RowPrefix(a, b, i - 1, prev)
    {
      var cur: seq<Cost> := [Inf];
      var j := 1;
      while j <= m
        invariant 1 <= j <= m + 1
        invariant |cur| == j
        invariant RowPrefix(a, b, i, cur)
      {
        var cost := Abs(a[i - 1] - b[j - 1]);
        var v := Plus(cost, Min3(prev[j], cur[j - 1], prev[j - 1]));
        assert v == Cell(a, b, i, j) by {
          assert prev[j] == Cell(a, b, i - 1, j) && prev[j - 1] == Cell(a, b, i - 1, j - 1);
          assert cur[j - 1] == Cell(a, b, i, j - 1);
          CellStep(a, b, i, j);
        }
        RowExtend(a, b, i, cur, v);
        cur := cur + [v];
        j := j + 1;
      }
      prev := cur;
      i := i + 1;
    }
    d := prev[m];
  }

  /** The distance is infinite exactly when one input is empty and the other is not. */
  lemma InfiniteIffOneEmpty(a: seq<real>, b: seq<real>)
    ensures Value(a, b).Inf? <==> (|a| == 0) != (|b| == 0)
    ensures Value(a, b).Fin? ==> Value(a, b).val >= 0.0
  {
  }

  lemma Min3Zero(x: Cost, y: Cost)
    requires x.Fin? ==> x.val >= 0.0
    requires y.Fin? ==> y.val >= 0.0
    ensures Min3(x, y, Fin(0.0)) == Fin(0.0)
  {
  }

  /** A sequence is at distance zero from itself: the diagonal of its table is zero. */
  lemma {:induction false} SelfZero(a: seq<real>, i: nat)
    requires i <= |a|
    ensures Cell(a, a, i, i) == Fin(0.0)
  {
    if i > 0 {
      SelfZero(a, i - 1);
      Min3Zero(Cell(a, a, i - 1, i), Cell(a, a, i, i - 1));
    }
  }

  lemma Min3Swap(x: Cost, y: Cost, z: Cost)
    ensures Min3(x, y, z) == Min3(y, x, z)
  {
  }

  /** Entry `(i, j)` of the table for `a, b` is entry `(j, i)` of the table for `b, a`. */
  ghost predicate Transposed(a: seq<real>, b: seq<real>, i: nat, j: nat)
    requires i <= |a| && j <= |b|
  {
    Cell(a, b, i, j) == Cell(b, a, j, i)
  }

  /** Swapping the inputs transposes the table. */
  lemma {:induction false} CellSymmetric(a: seq<real>, b: seq<real>, i: nat, j: nat)
    requires i <= |a| && j <= |b|
    ensures Transposed(a, b, i, j)
    decreases i + j
  {
    if i > 0 && j > 0 {
      CellSymmetric(a, b, i - 1, j);
      CellSymmetric(a, b, i, j - 1);
      CellSymmetric(a, b, i - 1, j - 1);
      SymmetricStep(a, b, i, j);
    } else {
      EdgeSymmetric(a, b, i, j);
    }
  }

  /** The first row and column of the table, transposed, are those of the swapped table. */
  lemma EdgeSymmetric(a: seq<real>, b: seq<real>, i: nat, j: nat)
    requires i <= |a| && j <= |b| && (i == 0 || j == 0)
    ensures Transposed(a, b, i, j)
  {
  }

  /** An inner entry and its transpose agree once their three predecessors do. */
  lemma SymmetricStep(a: seq<real>, b: seq<real>, i: nat, j: nat)
    requires 0 < i <= |a| && 0 < j <= |b|
    requires Transposed(a, b, i - 1, j) && Transposed(a, b, i, j - 1) && Transposed(a, b, i - 1, j - 1)
    ensures Transposed(a, b, i, j)
  {
    var x, y, z := Cell(a, b, i - 1, j), Cell(a, b, i, j - 1), Cell(a, b, i - 1, j - 1);
    CellStep(a, b, i, j);
    CellStep(b, a, j, i);
    assert Abs(a[i - 1] - b[j - 1]) == Abs(b[j - 1] - a[i - 1]);
    Min3Swap(x, y, z);
  }

  /** The DTW distance is symmetric, non-negative and zero on equal inputs. */
  lemma DistanceProperties(a: seq<real>, b: seq<real>)
    ensures Value(a, b) == Value(b, a)
    ensures Value(a, a) == Fin(0.0)
    ensures Value(a, b).Fin? ==> Value(a, b).val >= 0.0
  {
    CellSymmetric(a, b, |a|, |b|);
    SelfZero(a, |a|);
  }
}
