/** Stable insertion sort by a total preorder, standing in for Python's `list.sort`
    and `sorted` (both stable), and the uniqueness of an ascending arrangement of reals,
    which is what "equal up to ties" comparisons of distances rest on. */
module Sorting {

  /** Every two elements compare, and comparison chains. */
  ghost predicate TotalPreorder<T(!new)>(le: (T, T) -> bool) {
    && (forall a, b :: le(a, b) || le(b, a))
    && (forall a, b, c :: le(a, b) && le(b, c) ==> le(a, c))
  }

  ghost predicate SortedBy<T>(s: seq<T>, le: (T, T) -> bool) {
    forall i, j :: 0 <= i < j < |s| ==> le(s[i], s[j])
  }

  /** Places `x` in front of the first element it is not after, so that it stays ahead
      of every element it ties with. */
  function Insert<T>(x: T, s: seq<T>, le: (T, T) -> bool): (r: seq<T>)
    ensures multiset(r) == multiset(s) + multiset{x}
  {
    if |s| == 0 then [x]
    else if le(x, s[0]) then [x] + s
    else
      assert s == [s[0]] + s[1..];
      [s[0]] + Insert(x, s[1..], le)
  }

  lemma {:induction false} InsertSorted<T(!new)>(x: T, s: seq<T>, le: (T, T) -> bool)
    requires TotalPreorder(le)
    requires SortedBy(s, le)
    ensures SortedBy(Insert(x, s, le), le)
  {
    if |s| == 0 {
    } else if le(x, s[0]) {
      forall j | 0 < j < |s| ensures le(x, s[j]) {
        assert le(s[0], s[j]);
      }
    } else {
      assert le(s[0], x);
      var rest := Insert(x, s[1..], le);
      assert SortedBy(s[1..], le);
      InsertSorted(x, s[1..], le);
      assert s == [s[0]] + s[1..];
      forall j | 0 <= j < |rest| ensures le(s[0], rest[j]) {
        assert rest[j] in multiset(s[1..]) + multiset{x};
        if rest[j] != x {
          assert rest[j] in s[1..];
        }
      }
    }
  }

  /** Sorting keeps the elements (`SortBySorted` shows it puts them in `le` order). An
      element stays ahead of every later element it ties with, as in Python's stable
      sort, because `Insert` places the new head before its equals. */
  function SortBy<T>(s: seq<T>, le: (T, T) -> bool): (r: seq<T>)
    ensures multiset(r) == multiset(s)
    ensures |r| == |s|
  {
    if |s| == 0 then []
    else
      assert s == [s[0]] + s[1..];
      var r := Insert(s[0], SortBy(s[1..], le), le);
      assert |r| == |multiset(r)| == |multiset(s)| == |s|;
      r
  }

  lemma {:induction false} SortBySorted<T(!new)>(s: seq<T>, le: (T, T) -> bool)
    requires TotalPreorder(le)
    ensures SortedBy(SortBy(s, le), le)
  {
    if |s| > 0 {
      SortBySorted(s[1..], le);
      InsertSorted(s[0], SortBy(s[1..], le), le);
    }
  }

  /** In a sorted sequence everything before a cut point is `le` everything after it. */
  lemma PrefixDominates<T>(s: seq<T>, e: nat, le: (T, T) -> bool)
    requires SortedBy(s, le) && e <= |s|
    ensures forall x, y :: x in multiset(s[e..]) && y in s[..e] ==> le(y, x)
  {
    forall x, y | x in multiset(s[e..]) && y in s[..e] ensures le(y, x) {
      var b :| 0 <= b < |s[e..]| && s[e..][b] == x;
      var a :| 0 <= a < e && s[..e][a] == y;
      assert s[a] == y && s[e + b] == x;
    }
  }

  function RealLe(a: real, b: real): bool {
    a <= b
  }

  lemma RealLeIsTotalPreorder()
    ensures TotalPreorder(RealLe)
  {
  }

  ghost predicate Ascending(s: seq<real>) {
    forall i, j :: 0 <= i < j < |s| ==> s[i] <= s[j]
  }

  /** The ascending arrangement of a sequence of reals. */
  function SortReals(s: seq<real>): (r: seq<real>)
    ensures Ascending(r)
    ensures multiset(r) == multiset(s)
    ensures |r| == |s|
  {
    RealLeIsTotalPreorder();
    SortBySorted(s, RealLe);
    SortBy(s, RealLe)
  }

  /** There is only one ascending arrangement of a multiset of reals. */
  lemma {:induction false} AscendingUnique(s: seq<real>, t: seq<real>)
    requires Ascending(s) && Ascending(t)
    requires multiset(s) == multiset(t)
    ensures s == t
    decreases |s|
  {
    assert |s| == |multiset(s)| == |multiset(t)| == |t|;
    if |s| > 0 {
      assert s[0] in multiset(t) && t[0] in multiset(s);
      assert s[0] == t[0];
      assert s == [s[0]] + s[1..];
      assert t == [t[0]] + t[1..];
      assert multiset(s[1..]) == multiset(s) - multiset{s[0]};
      assert multiset(t[1..]) == multiset(t) - multiset{t[0]};
      AscendingUnique(s[1..], t[1..]);
    }
  }

  /** If `a` splits into a low part `b` and a high part `c`, sorting `a` puts all of `b`
      first: the ascending arrangement of `a` starts with that of `b`. */
  lemma SortSplit(a: seq<real>, b: seq<real>, c: seq<real>)
    requires multiset(a) == multiset(b) + multiset(c)
    requires forall x, y :: x in b && y in c ==> x <= y
    ensures SortReals(a) == SortReals(b) + SortReals(c)
  {
    var sb, sc := SortReals(b), SortReals(c);
    forall x, y | x in sb && y in sc ensures x <= y {
      assert x in multiset(sb) && y in multiset(sc);
      assert x in b && y in c;
    }
    AscendingConcat(sb, sc);
    assert multiset(sb + sc) == multiset(a);
    AscendingUnique(SortReals(a), sb + sc);
  }

  /** Two ascending runs, the first wholly below the second, make an ascending run. */
  lemma AscendingConcat(s: seq<real>, t: seq<real>)
    requires Ascending(s) && Ascending(t)
    requires forall x, y :: x in s && y in t ==> x <= y
    ensures Ascending(s + t)
  {
    forall i, j | 0 <= i < j < |s + t| ensures (s + t)[i] <= (s + t)[j] {
      if i < |s| && |s| <= j {
        assert (s + t)[i] == s[i] && (s + t)[j] == t[j - |s|];
        assert s[i] in s && t[j - |s|] in t;
      } else if j < |s| {
        assert (s + t)[i] == s[i] && (s + t)[j] == s[j];
      } else {
        assert (s + t)[i] == t[i - |s|] && (s + t)[j] == t[j - |s|];
      }
    }
  }


  /** Two elements that compare both ways are equal. */
  ghost predicate Antisymmetric<T(!new)>(le: (T, T) -> bool) {
    forall a, b :: le(a, b) && le(b, a) ==> a == b
  }

  /** Two arrangements of one multiset that are both in `le` order coincide when `le`
      is antisymmetric. */
  lemma {:induction false} SortedUnique<T(!new)>(s: seq<T>, t: seq<T>, le: (T, T) -> bool)
    requires Antisymmetric(le)
    requires SortedBy(s, le) && SortedBy(t, le)
    requires multiset(s) == multiset(t)
    ensures s == t
    decreases |s|
  {
    assert |s| == |multiset(s)| == |multiset(t)| == |t|;
    if |s| > 0 {
      SortedHeads(s, t, le);
      SameHeadTails(s, t);
      SortedTail(s, le);
      SortedTail(t, le);
      SortedUnique(s[1..], t[1..], le);
      assert s == [s[0]] + s[1..];
      assert t == [t[0]] + t[1..];
    }
  }

  /** Two non-empty arrangements of one multiset, both in antisymmetric `le` order,
      start with the same element. */
  lemma SortedHeads<T(!new)>(s: seq<T>, t: seq<T>, le: (T, T) -> bool)
    requires Antisymmetric(le)
    requires SortedBy(s, le) && SortedBy(t, le)
    requires multiset(s) == multiset(t) && |s| > 0
    ensures |t| > 0 && s[0] == t[0]
  {
    assert s[0] in multiset(t) && t[0] in multiset(s);
    var p :| 0 <= p < |t| && t[p] == s[0];
    var q :| 0 <= q < |s| && s[q] == t[0];
    if p != 0 && q != 0 {
      assert le(t[0], t[p]) && le(s[0], s[q]);
    }
  }

  /** Removing one common head from two arrangements of one multiset leaves
      arrangements of one multiset. */
  lemma SameHeadTails<T>(s: seq<T>, t: seq<T>)
    requires |s| > 0 && |t| > 0 && s[0] == t[0] && multiset(s) == multiset(t)
    ensures multiset(s[1..]) == multiset(t[1..])
  {
    assert s == [s[0]] + s[1..];
    assert t == [t[0]] + t[1..];
    assert multiset(s[1..]) == multiset(s) - multiset{s[0]};
    assert multiset(t[1..]) == multiset(t) - multiset{t[0]};
  }

  lemma SortedTail<T>(s: seq<T>, le: (T, T) -> bool)
    requires SortedBy(s, le) && |s| > 0
    ensures SortedBy(s[1..], le)
  {
    forall i, j | 0 <= i < j < |s[1..]| ensures le(s[1..][i], s[1..][j]) {
      assert s[1..][i] == s[i + 1] && s[1..][j] == s[j + 1];
    }
  }

}
