/** Sorting and de-duplicating integer keys the way a sorted `groupby` orders them. */
module Sequences {

  predicate Sorted(s: seq<int>) {
    forall i, j :: 0 <= i < j < |s| ==> s[i] <= s[j]
  }

  predicate StrictlyIncreasing(s: seq<int>) {
    forall i, j :: 0 <= i < j < |s| ==> s[i] < s[j]
  }

  function Sum(xs: seq<int>): int {
    if xs == [] then 0 else xs[0] + Sum(xs[1..])
  }

  function Insert(x: int, s: seq<int>): (r: seq<int>)
    requires Sorted(s)
    ensures Sorted(r)
    ensures multiset(r) == multiset(s) + multiset{x}
    ensures |r| == |s| + 1
  {
    if s == [] || x <= s[0] then [x] + s
    else
      var t := s[1..];
      assert s == [s[0]] + t;
      assert forall k :: 0 <= k < |t| ==> s[0] <= t[k] by {
        forall k | 0 <= k < |t| ensures s[0] <= t[k] {
          assert t[k] == s[k + 1];
        }
      }
      var rest := Insert(x, t);
      LowerBoundKept(rest, t, x, s[0]);
      ConsSorted(s[0], rest);
      [s[0]] + rest
  }

  /** A lower bound of every element survives a rearrangement. */
  lemma LowerBoundKept(a: seq<int>, b: seq<int>, x: int, lo: int)
    requires multiset(a) == multiset(b) + multiset{x}
    requires lo <= x
    requires forall k :: 0 <= k < |b| ==> lo <= b[k]
    ensures forall k :: 0 <= k < |a| ==> lo <= a[k]
  {
    forall k | 0 <= k < |a| ensures lo <= a[k] {
      assert a[k] in multiset(a);
      if a[k] != x {
        assert a[k] in multiset(b);
        var j :| 0 <= j < |b| && b[j] == a[k];
      }
    }
  }

  lemma ConsSorted(h: int, t: seq<int>)
    requires Sorted(t)
    requires forall k :: 0 <= k < |t| ==> h <= t[k]
    ensures Sorted([h] + t)
  {
    var r := [h] + t;
    forall i, j | 0 <= i < j < |r| ensures r[i] <= r[j] {
      assert r[j] == t[j - 1];
      if i > 0 {
        assert r[i] == t[i - 1];
      }
    }
  }

  /** `np.sort` on integers: the sorted permutation of `xs`. */
  function SortInts(xs: seq<int>): (r: seq<int>)
    ensures Sorted(r)
    ensures multiset(r) == multiset(xs)
    ensures |r| == |xs|
  {
    if xs == [] then []
    else
      assert xs == [xs[0]] + xs[1..];
      Insert(xs[0], SortInts(xs[1..]))
  }

  /** Drops adjacent repeats of a sorted sequence. */
  function UniqueSorted(s: seq<int>): (r: seq<int>)
    requires Sorted(s)
    ensures StrictlyIncreasing(r)
    ensures forall x :: x in r <==> x in s
  {
    if |s| <= 1 then s
    else if s[0] == s[1] then UniqueSorted(s[1..])
    else
      var rest := UniqueSorted(s[1..]);
      assert forall x :: x in rest ==> s[0] < x by {
        forall x | x in rest ensures s[0] < x {
          var k :| 1 <= k < |s| && s[k] == x;
        }
      }
      var r := [s[0]] + rest;
      assert forall j :: 0 < j < |r| ==> r[j] in rest;
      r
  }

  /** The distinct values of `xs` in ascending order: the keys a sorted group-by visits. */
  function DistinctSorted(xs: seq<int>): (r: seq<int>)
    ensures StrictlyIncreasing(r)
    ensures forall x :: x in r <==> x in xs
  {
    var s := SortInts(xs);
    assert forall x :: x in s <==> x in xs by {
      forall x ensures x in s <==> x in xs {
        assert x in s <==> x in multiset(s);
        assert x in xs <==> x in multiset(xs);
      }
    }
    UniqueSorted(s)
  }

  /** Sorting an already sorted sequence leaves it as it is. */
  lemma {:induction false} SortIntsSorted(xs: seq<int>)
    requires Sorted(xs)
    ensures SortInts(xs) == xs
  {
    if xs != [] {
      var t := xs[1..];
      assert Sorted(t) by {
        forall i, j | 0 <= i < j < |t| ensures t[i] <= t[j] {
          assert t[i] == xs[i + 1] && t[j] == xs[j + 1];
        }
      }
      SortIntsSorted(t);
      assert SortInts(xs) == Insert(xs[0], t);
      assert t == [] || xs[0] <= t[0];
      assert xs == [xs[0]] + t;
    }
  }

  /** The distinct keys of a strictly increasing sequence are that sequence. */
  lemma {:induction false} DistinctSortedIncreasing(xs: seq<int>)
    requires StrictlyIncreasing(xs)
    ensures DistinctSorted(xs) == xs
  {
    SortIntsSorted(xs);
    UniqueIncreasing(xs);
  }

  lemma {:induction false} UniqueIncreasing(s: seq<int>)
    requires StrictlyIncreasing(s)
    ensures UniqueSorted(s) == s
  {
    if |s| > 1 {
      UniqueIncreasing(s[1..]);
      assert s == [s[0]] + s[1..];
    }
  }

  predicate Distinct(s: seq<int>) {
    forall i, j :: 0 <= i < |s| && 0 <= j < |s| && i != j ==> s[i] != s[j]
  }

  lemma IncreasingIsDistinct(s: seq<int>)
    requires StrictlyIncreasing(s)
    ensures Distinct(s)
  {
    forall i, j | 0 <= i < |s| && 0 <= j < |s| && i != j ensures s[i] != s[j] {
      if i < j {
        assert s[i] < s[j];
      } else {
        assert s[j] < s[i];
      }
    }
  }

  /** A sequence without repeats is as long as the set of its elements. */
  lemma {:induction false} DistinctLength(r: seq<int>, t: set<int>)
    requires Distinct(r)
    requires forall x :: x in r <==> x in t
    ensures |r| == |t|
    decreases |r|
  {
    if r != [] {
      var t' := t - {r[0]};
      assert forall x :: x in r[1..] <==> x in t' by {
        forall x ensures x in r[1..] <==> x in t' {
          if x in r[1..] {
            var k :| 1 <= k < |r| && r[k] == x;
          }
        }
      }
      DistinctLength(r[1..], t');
    } else {
      assert forall x :: x !in t;
      assert t == {};
    }
  }
}
