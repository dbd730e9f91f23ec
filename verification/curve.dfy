/** The list logic of `CurveAnalyzer` (data/curve_analyzer.py): anomaly detection on
    successive derivative differences, and compression that keeps every anomaly,
    stride-samples the other points and re-sorts the result by x. Curve fitting and
    the derivatives themselves are numerics and are inputs here. */
module CurveAnalyzer {
  import opened Wrappers
  import opened Seqs
  import opened Sorting

  function Abs(x: real): real {
    if x < 0.0 then -x else x
  }

  ghost predicate Increasing(s: seq<nat>) {
    forall i, j :: 0 <= i < j < |s| ==> s[i] < s[j]
  }

  /** `detect_anomalies`: the indices `i >= 1` whose derivative jumps by more than
      `threshold` from the one before, in ascending order; a list of at most one
      derivative has none. */
  method DetectAnomalies(d: seq<real>, threshold: real) returns (r: seq<nat>)
    ensures forall i :: i in r <==> 1 <= i < |d| && Abs(d[i] - d[i - 1]) > threshold
    ensures Increasing(r)
    ensures |d| <= 1 ==> r == []
  {
    r := [];
    var i := 1;
    while i < |d|
      invariant 1 <= i && (|d| > 0 ==> i <= |d|)
      invariant forall j :: j in r <==> 1 <= j < i && j < |d| && Abs(d[j] - d[j - 1]) > threshold
      invariant Increasing(r)
      invariant forall j :: j in r ==> 1 <= j < i
      invariant |d| <= 1 ==> r == []
    {
      if Abs(d[i] - d[i - 1]) > threshold {
        var r' := r + [i];
        forall a, b | 0 <= a < b < |r'| ensures r'[a] < r'[b] {
          assert r'[a] == r[a] && r[a] in r;
        }
        r := r';
      }
      i := i + 1;
    }
  }

  type Pt = (real, real)

  /** `(x[i], y[i])`, with a harmless default outside the arrays. */
  function PointOf(x: seq<real>, y: seq<real>): nat -> Pt {
    (i: nat) => if i < |x| && i < |y| then (x[i], y[i]) else (0.0, 0.0)
  }

  /** The `(x[i], y[i])` pairs of a list of indices. */
  function PointsAt(x: seq<real>, y: seq<real>, idx: seq<nat>): seq<Pt> {
    Map(PointOf(x, y), idx)
  }

  /** The ascending indices of `range(n)` that are not anomalies. */
  function NormalIndices(n: nat, anomalies: seq<nat>): (r: seq<nat>)
    ensures forall i: nat :: i in r <==> i < n && i !in anomalies
    ensures Increasing(r)
  {
    assert forall i: nat :: i in Range(n) <==> i < n by {
      forall i: nat ensures i in Range(n) <==> i < n {
        if i < n {
          assert Range(n)[i] == i;
        }
      }
    }
    DropInIncreasing(Range(n), anomalies);
    DropIn(Range(n), anomalies)
  }

  lemma {:induction false} DropInIncreasing(u: seq<nat>, h: seq<nat>)
    requires Increasing(u)
    ensures Increasing(DropIn(u, h))
  {
    if |u| > 0 {
      var rest := DropIn(u[1..], h);
      assert Increasing(u[1..]);
      DropInIncreasing(u[1..], h);
      if u[0] !in h {
        forall k | 0 <= k < |rest| ensures u[0] < rest[k] {
          assert rest[k] in u[1..];
        }
        var r := [u[0]] + rest;
        forall i, j | 0 <= i < j < |r| ensures r[i] < r[j] {
          assert r[j] == rest[j - 1];
          if i > 0 {
            assert r[i] == rest[i - 1];
          }
        }
      }
    }
  }

  /** Distinct anomaly indices below `n` leave exactly `n - |anomalies|` normal ones. */
  lemma NormalSplit(n: nat, anomalies: seq<nat>)
    requires Distinct(anomalies)
    requires forall i :: i in anomalies ==> i < n
    ensures multiset(Range(n)) == multiset(anomalies) + multiset(NormalIndices(n, anomalies))
    ensures |NormalIndices(n, anomalies)| == n - |anomalies|
  {
    forall i | i in anomalies ensures i in Range(n) {
      assert Range(n)[i] == i;
    }
    SplitAround(Range(n), anomalies);
    assert |multiset(Range(n))| == n;
  }

  /** `s[::step]`: the elements at positions 0, step, 2*step, ..., of which there
      are `ceil(|s| / step)`. */
  function Stride<T>(s: seq<T>, step: nat): (r: seq<T>)
    requires step > 0
    ensures |r| == (|s| + step - 1) / step
    ensures forall j :: 0 <= j < |r| ==> j * step < |s| && r[j] == s[j * step]
  {
    var n := (|s| + step - 1) / step;
    StrideInRange(|s|, step);
    seq(n, j requires 0 <= j < n => s[j * step])
  }

  /** Every position `j * step` with `j < ceil(len / step)` lies inside the list. */
  lemma StrideInRange(len: nat, step: nat)
    requires step > 0
    ensures forall j :: 0 <= j < (len + step - 1) / step ==> j * step < len
  {
    var q := (len + step - 1) / step;
    var rem := (len + step - 1) % step;
    assert len + step - 1 == q * step + rem;
    MulSucc(q, step);
    forall j | 0 <= j < q ensures j * step < len {
      MulMono(j, q - 1, step);
    }
  }

  lemma MulSucc(j: int, step: int)
    ensures (j - 1) * step + step == j * step
  {
  }

  lemma MulMono(a: int, b: int, step: int)
    requires step > 0 && a <= b
    ensures a * step <= b * step
  {
    assert b * step - a * step == (b - a) * step;
  }

  /** Cancelling a positive factor from an inequality. */
  lemma MulCancel(a: int, b: int, step: int)
    requires step > 0 && a * step <= b * step
    ensures a <= b
  {
    assert (b - a) * step == b * step - a * step;
  }

  /** `int((total_points - len(anomalies)) * compression_ratio)`; `int` truncates,
      which is the floor for the non-negative products modelled here. */
  function KeepCount(total: nat, anomalyCount: nat, ratio: real): int {
    ((total - anomalyCount) as real * ratio).Floor
  }

  lemma KeepNonNegative(total: nat, anomalyCount: nat, ratio: real)
    requires anomalyCount <= total && ratio >= 0.0
    ensures KeepCount(total, anomalyCount, ratio) >= 0
  {
    assert (total - anomalyCount) as real * ratio >= 0.0;
  }

  /** The sampled normal indices: all of them when there are at most `keep`,
      otherwise every `count // keep`-th one from the first, which keeps at least
      `keep` of them. */
  function Sampled(normal: seq<nat>, keep: nat): (r: seq<nat>)
    requires keep > 0 || |normal| == 0
    ensures forall i :: i in r ==> i in normal
    ensures |normal| <= keep ==> r == normal
    ensures |normal| > keep ==> keep <= |r| <= |normal|
    ensures |normal| > keep ==>
      var step := |normal| / keep;
      && |r| == (|normal| + step - 1) / step
      && forall j :: 0 <= j < |r| ==> j * step < |normal| && r[j] == normal[j * step]
  {
    if |normal| > keep then
      var step := |normal| / keep;
      StrideCount(|normal|, keep);
      var r := Stride(normal, step);
      forall i | i in r ensures i in normal {
        var j :| 0 <= j < |r| && r[j] == i;
      }
      r
    else normal
  }

  /** With the stride `step = c // keep` of `c > keep > 0` points, the
      `ceil(c / step)` sampled points number between `keep` and `c`. */
  lemma StrideCount(c: nat, keep: nat)
    requires 0 < keep < c
    ensures c / keep >= 1
    ensures keep <= (c + c / keep - 1) / (c / keep) <= c
  {
    var step := c / keep;
    assert c == keep * step + c % keep;
    assert keep * step > 0;
    var q := (c + step - 1) / step;
    var rem := (c + step - 1) % step;
    assert c + step - 1 == q * step + rem;
    MulCancel(keep, q, step);
    MulSucc(q, step);
    assert (q - 1) * step < c;
    if q > 1 {
      MulMono(1, step, q - 1);
    }
  }

  /** The two returned arrays. */
  datatype Compressed = Compressed(xs: seq<real>, ys: seq<real>)

  /** The returned arrays read back as points. */
  function Pairs(c: Compressed): seq<Pt>
    requires |c.xs| == |c.ys|
  {
    seq(|c.xs|, k requires 0 <= k < |c.xs| => (c.xs[k], c.ys[k]))
  }

  function XLe(p: Pt, q: Pt): bool {
    p.0 <= q.0
  }

  function First(p: Pt): real {
    p.0
  }

  function Second(p: Pt): real {
    p.1
  }

  /** `compress_data`: every anomaly point and the sampled normal points, stably
      sorted by x. When no normal point is to be kept but some exist, the stride
      division `len(normal_indices) // 0` raises. */
  function CompressData(x: seq<real>, y: seq<real>, anomalies: seq<nat>, ratio: real): (r: Option<Compressed>)
    requires |x| == |y|
    requires Distinct(anomalies) && forall i :: i in anomalies ==> i < |x|
    requires ratio >= 0.0
    ensures r.None? <==> KeepCount(|x|, |anomalies|, ratio) == 0 && |NormalIndices(|x|, anomalies)| > 0
    ensures r.Some? ==> |r.value.xs| == |r.value.ys|
    ensures r.Some? ==> Ascending(r.value.xs)
    ensures r.Some? ==>
      var keep := KeepCount(|x|, |anomalies|, ratio);
      && keep >= 0
      && multiset(Pairs(r.value))
         == multiset(PointsAt(x, y, anomalies)) + multiset(PointsAt(x, y, Sampled(NormalIndices(|x|, anomalies), keep)))
  {
    NormalSplit(|x|, anomalies);
    KeepNonNegative(|x|, |anomalies|, ratio);
    var normal := NormalIndices(|x|, anomalies);
    var keep := KeepCount(|x|, |anomalies|, ratio);
    if keep == 0 && |normal| > 0 then None
    else
      var points := PointsAt(x, y, anomalies) + PointsAt(x, y, Sampled(normal, keep));
      SortedByX(points);
      var all := SortBy(points, XLe);
      Some(Compressed(Map(First, all), Map(Second, all)))
  }

  /** Sorting points by x and splitting them into two arrays gives ascending x values
      and, read back as points, the same points. */
  lemma SortedByX(points: seq<Pt>)
    ensures var all := SortBy(points, XLe);
      var c := Compressed(Map(First, all), Map(Second, all));
      && |c.xs| == |c.ys|
      && Ascending(c.xs)
      && multiset(Pairs(c)) == multiset(points)
  {
    var all := SortBy(points, XLe);
    var c := Compressed(Map(First, all), Map(Second, all));
    assert Pairs(c) == all;
    SortBySorted(points, XLe);
    forall i, j | 0 <= i < j < |c.xs| ensures c.xs[i] <= c.xs[j] {
      assert XLe(all[i], all[j]);
    }
  }

  /** A ratio of at least 1 keeps every point: the result is all of `(x[i], y[i])`,
      sorted by x. */
  lemma FullRatioKeepsAll(x: seq<real>, y: seq<real>, anomalies: seq<nat>, ratio: real)
    requires |x| == |y|
    requires Distinct(anomalies) && forall i :: i in anomalies ==> i < |x|
    requires ratio >= 1.0
    ensures CompressData(x, y, anomalies, ratio).Some?
    ensures multiset(Pairs(CompressData(x, y, anomalies, ratio).value)) == multiset(PointsAt(x, y, Range(|x|)))
  {
    NormalSplit(|x|, anomalies);
    var normal := NormalIndices(|x|, anomalies);
    KeepAll(|x| - |anomalies|, ratio);
    var keep := KeepCount(|x|, |anomalies|, ratio);
    assert keep >= |normal|;
    assert Sampled(normal, keep) == normal;
    MapAppend(PointOf(x, y), anomalies, normal);
    MapMultiset(PointOf(x, y), anomalies + normal, Range(|x|));
  }

  /** A ratio of at least 1 keeps at least every normal point. */
  lemma KeepAll(count: nat, ratio: real)
    requires ratio >= 1.0
    ensures (count as real * ratio).Floor >= count
  {
    assert count as real * ratio - count as real == count as real * (ratio - 1.0);
  }

  /** Every anomaly point is in the result. */
  lemma AnomaliesKept(x: seq<real>, y: seq<real>, anomalies: seq<nat>, ratio: real, i: nat)
    requires |x| == |y|
    requires Distinct(anomalies) && forall i :: i in anomalies ==> i < |x|
    requires ratio >= 0.0
    requires CompressData(x, y, anomalies, ratio).Some?
    requires i in anomalies
    ensures (x[i], y[i]) in Pairs(CompressData(x, y, anomalies, ratio).value)
  {
    var c := CompressData(x, y, anomalies, ratio).value;
    var j :| 0 <= j < |anomalies| && anomalies[j] == i;
    assert PointsAt(x, y, anomalies)[j] == (x[i], y[i]);
    assert (x[i], y[i]) in multiset(Pairs(c));
  }

  /** Every point of the result is some input point `(x[i], y[i])`. */
  lemma CompressedFromInput(x: seq<real>, y: seq<real>, anomalies: seq<nat>, ratio: real, k: nat)
    requires |x| == |y|
    requires Distinct(anomalies) && forall i :: i in anomalies ==> i < |x|
    requires ratio >= 0.0
    requires CompressData(x, y, anomalies, ratio).Some?
    requires k < |CompressData(x, y, anomalies, ratio).value.xs|
    ensures exists i :: 0 <= i < |x| && Pairs(CompressData(x, y, anomalies, ratio).value)[k] == (x[i], y[i])
  {
    var c := CompressData(x, y, anomalies, ratio).value;
    var keep := KeepCount(|x|, |anomalies|, ratio);
    var sampled := Sampled(NormalIndices(|x|, anomalies), keep);
    var p := Pairs(c)[k];
    assert p in multiset(Pairs(c));
    assert p in PointsAt(x, y, anomalies) + PointsAt(x, y, sampled);
    var j :| 0 <= j < |anomalies + sampled| && (PointsAt(x, y, anomalies) + PointsAt(x, y, sampled))[j] == p;
    MapAppend(PointOf(x, y), anomalies, sampled);
    var i := (anomalies + sampled)[j];
    assert i in anomalies || i in sampled;
    assert p == (x[i], y[i]);
  }
}
