/** Sequence helpers shared by the index, the ranking and the list rules:
    mapping, index ranges, distinctness, and how multisets travel through a map. */
module Seqs {

  /** `[f(s[0]), ..., f(s[|s|-1])]` */
  function Map<A, B>(f: A -> B, s: seq<A>): (r: seq<B>)
    ensures |r| == |s|
    ensures forall i :: 0 <= i < |s| ==> r[i] == f(s[i])
  {
    seq(|s|, i requires 0 <= i < |s| => f(s[i]))
  }

  /** Python's `list(range(n))` */
  function Range(n: nat): (r: seq<nat>)
    ensures |r| == n
    ensures forall i :: 0 <= i < n ==> r[i] == i
  {
    seq(n, i requires 0 <= i < n => i)
  }

  ghost predicate Distinct<T>(s: seq<T>) {
    forall i, j :: 0 <= i < j < |s| ==> s[i] != s[j]
  }

  function Min(a: int, b: int): int {
    if a <= b then a else b
  }

  lemma MapAppend<A, B>(f: A -> B, s: seq<A>, t: seq<A>)
    ensures Map(f, s + t) == Map(f, s) + Map(f, t)
  {
  }

  /** Rearrangements of one another have the same elements. */
  lemma SameElements<T>(s: seq<T>, t: seq<T>)
    requires multiset(s) == multiset(t)
    ensures forall x :: x in s <==> x in t
  {
    forall x ensures x in s <==> x in t {
      assert x in s <==> x in multiset(s);
      assert x in t <==> x in multiset(t);
    }
  }

  /** In a duplicate-free sequence every element occurs exactly once. */
  lemma {:induction false} DistinctMultiplicity<T>(s: seq<T>, x: T)
    requires Distinct(s)
    ensures multiset(s)[x] == if x in s then 1 else 0
  {
    if |s| > 0 {
      assert s == [s[0]] + s[1..];
      assert Distinct(s[1..]) by {
        forall i, j | 0 <= i < j < |s[1..]| ensures s[1..][i] != s[1..][j] {
          assert s[1..][i] == s[i + 1] && s[1..][j] == s[j + 1];
        }
      }
      DistinctMultiplicity(s[1..], x);
      if x == s[0] {
        assert x !in s[1..] by {
          forall i | 0 <= i < |s[1..]| ensures s[1..][i] != x {
            assert s[1..][i] == s[i + 1];
          }
        }
      }
    }
  }

  /** A sequence whose multiplicities are all at most one has no duplicates. */
  lemma DistinctFromMultiplicity<T>(s: seq<T>)
    requires forall x :: multiset(s)[x] <= 1
    ensures Distinct(s)
  {
    forall i, j | 0 <= i < j < |s| ensures s[i] != s[j] {
      assert s == s[..j] + [s[j]] + s[j + 1..];
      assert s[..j] == s[..i] + [s[i]] + s[i + 1..j];
      assert multiset(s)[s[j]] == multiset(s[..j])[s[j]] + 1 + multiset(s[j + 1..])[s[j]];
      assert multiset(s[..j])[s[i]] >= 1;
    }
  }

  /** Rearranging a duplicate-free sequence keeps it duplicate-free. */
  lemma DistinctPermutation<T>(s: seq<T>, t: seq<T>)
    requires Distinct(s) && multiset(s) == multiset(t)
    ensures Distinct(t)
  {
    forall x ensures multiset(t)[x] <= 1 {
      DistinctMultiplicity(s, x);
    }
    DistinctFromMultiplicity(t);
  }

  /** Mapping a function over two rearrangements of one another gives rearrangements
      of one another. */
  lemma {:induction false} MapMultiset<A, B>(f: A -> B, s: seq<A>, t: seq<A>)
    requires multiset(s) == multiset(t)
    ensures multiset(Map(f, s)) == multiset(Map(f, t))
    decreases |s|
  {
    if |s| == 0 {
      assert |t| == |multiset(t)| == 0;
    } else {
      assert s[0] in multiset(t);
      var j :| 0 <= j < |t| && t[j] == s[0];
      var t' := t[..j] + t[j + 1..];
      assert t == t[..j] + [t[j]] + t[j + 1..];
      assert s == [s[0]] + s[1..];
      assert multiset(t) == multiset(t[..j]) + multiset{t[j]} + multiset(t[j + 1..]);
      assert multiset(t') == multiset(t[..j]) + multiset(t[j + 1..]);
      assert multiset(s) == multiset{s[0]} + multiset(s[1..]);
      assert multiset(s[1..]) == multiset(s) - multiset{s[0]};
      assert multiset(t') == multiset(t) - multiset{t[j]};
      MapMultiset(f, s[1..], t');
      MapAppend(f, [s[0]], s[1..]);
      MapAppend(f, t[..j], [t[j]]);
      MapAppend(f, t[..j] + [t[j]], t[j + 1..]);
      MapAppend(f, t[..j], t[j + 1..]);
    }
  }

  /** The elements of `u` that occur in `h`, in `u`'s order. */
  function KeepIn<T(==,!new)>(u: seq<T>, h: seq<T>): (r: seq<T>)
    ensures forall x :: x in r <==> x in u && x in h
  {
    if |u| == 0 then []
    else if u[0] in h then [u[0]] + KeepIn(u[1..], h)
    else KeepIn(u[1..], h)
  }

  /** The elements of `u` that do not occur in `h`, in `u`'s order. */
  function DropIn<T(==,!new)>(u: seq<T>, h: seq<T>): (r: seq<T>)
    ensures forall x :: x in r <==> x in u && x !in h
    ensures r == [] <==> forall x :: x in u ==> x in h
  {
    if |u| == 0 then []
    else if u[0] in h then DropIn(u[1..], h)
    else [u[0]] + DropIn(u[1..], h)
  }

  /** Every element of `u` goes to exactly one of the two parts. */
  lemma {:induction false} KeepDropSplit<T(!new)>(u: seq<T>, h: seq<T>)
    ensures multiset(u) == multiset(KeepIn(u, h)) + multiset(DropIn(u, h))
  {
    if |u| > 0 {
      assert u == [u[0]] + u[1..];
      KeepDropSplit(u[1..], h);
    }
  }

  /** When `h` is a duplicate-free part of the duplicate-free `u`, the kept part is a
      rearrangement of `h`, so `u` splits into `h` and the dropped part. */
  lemma SplitAround<T(!new)>(u: seq<T>, h: seq<T>)
    requires Distinct(u) && Distinct(h)
    requires forall x :: x in h ==> x in u
    ensures multiset(u) == multiset(h) + multiset(DropIn(u, h))
  {
    var kept := KeepIn(u, h);
    KeepDropSplit(u, h);
    forall x ensures multiset(kept)[x] <= 1 {
      DistinctMultiplicity(u, x);
    }
    DistinctFromMultiplicity(kept);
    forall x ensures multiset(kept)[x] == multiset(h)[x] {
      DistinctMultiplicity(kept, x);
      DistinctMultiplicity(h, x);
    }
    assert multiset(kept) == multiset(h);
  }
}
