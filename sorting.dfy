/**
 * `Array.prototype.sort` with a comparator of the form `(a, b) => key(b) - key(a)`:
 * the sort is stable (as the language standard requires) and orders by
 * non-increasing key. Modelled as an insertion sort.
 */
module Sorting {
  import opened Sequences

  ghost predicate SortedDesc<T>(xs: seq<T>, key: T -> int) {
    forall i, j :: 0 <= i < j < |xs| ==> key(xs[i]) >= key(xs[j])
  }

  /** The elements of `xs` whose key is `k`, in their order in `xs`. */
  function WithKey<T>(xs: seq<T>, key: T -> int, k: int): seq<T>
  {
    if |xs| == 0 then []
    else (if key(xs[0]) == k then [xs[0]] else []) + WithKey(xs[1..], key, k)
  }

  /** Places `x` after every element of `s` whose key is strictly greater. */
  function Insert<T>(x: T, s: seq<T>, key: T -> int): seq<T>
  {
    if |s| == 0 || key(x) >= key(s[0]) then [x] + s
    else [s[0]] + Insert(x, s[1..], key)
  }

  function SortDesc<T>(xs: seq<T>, key: T -> int): seq<T>
  {
    if |xs| == 0 then [] else Insert(xs[0], SortDesc(xs[1..], key), key)
  }

  lemma {:induction false} InsertMultiset<T>(x: T, s: seq<T>, key: T -> int)
    ensures multiset(Insert(x, s, key)) == multiset{x} + multiset(s)
  {
    if |s| > 0 && key(x) < key(s[0]) {
      InsertMultiset(x, s[1..], key);
      assert s == [s[0]] + s[1..];
    }
  }

  lemma {:induction false} InsertSorted<T>(x: T, s: seq<T>, key: T -> int)
    requires SortedDesc(s, key)
    ensures SortedDesc(Insert(x, s, key), key)
  {
    if |s| > 0 && key(x) < key(s[0]) {
      var t := Insert(x, s[1..], key);
      var r := [s[0]] + t;
      assert SortedDesc(s[1..], key) by {
        forall i, j | 0 <= i < j < |s[1..]| ensures key(s[1..][i]) >= key(s[1..][j]) {
          assert s[1..][i] == s[i + 1] && s[1..][j] == s[j + 1];
        }
      }
      InsertSorted(x, s[1..], key);
      InsertMultiset(x, s[1..], key);
      forall j | 0 <= j < |t| ensures key(t[j]) <= key(s[0]) {
        assert t[j] in multiset(t);
        if t[j] != x {
          assert t[j] in multiset(s[1..]);
          var m :| 0 <= m < |s[1..]| && s[1..][m] == t[j];
          assert s[m + 1] == t[j];
        }
      }
      forall i, j | 0 <= i < j < |r| ensures key(r[i]) >= key(r[j]) {
        assert r[j] == t[j - 1];
        if i > 0 {
          assert r[i] == t[i - 1];
        }
      }
    }
  }

  lemma {:induction false} InsertWithKey<T>(x: T, s: seq<T>, key: T -> int, k: int)
    ensures WithKey(Insert(x, s, key), key, k) == (if key(x) == k then [x] else []) + WithKey(s, key, k)
  {
    if |s| == 0 || key(x) >= key(s[0]) {
      assert ([x] + s)[1..] == s;
    } else {
      InsertWithKey(x, s[1..], key, k);
      var t := Insert(x, s[1..], key);
      assert ([s[0]] + t)[1..] == t;
    }
  }

  /** The sorted sequence is ordered by non-increasing key. */
  lemma {:induction false} SortDescSorted<T>(xs: seq<T>, key: T -> int)
    ensures SortedDesc(SortDesc(xs, key), key)
  {
    if |xs| > 0 {
      SortDescSorted(xs[1..], key);
      InsertSorted(xs[0], SortDesc(xs[1..], key), key);
    }
  }

  /** The sorted sequence is a permutation of the input. */
  lemma {:induction false} SortDescPermutation<T>(xs: seq<T>, key: T -> int)
    ensures multiset(SortDesc(xs, key)) == multiset(xs)
  {
    if |xs| > 0 {
      SortDescPermutation(xs[1..], key);
      InsertMultiset(xs[0], SortDesc(xs[1..], key), key);
      assert xs == [xs[0]] + xs[1..];
    }
  }

  /** Stability: elements with equal keys keep their relative order. */
  lemma {:induction false} SortDescStable<T>(xs: seq<T>, key: T -> int, k: int)
    ensures WithKey(SortDesc(xs, key), key, k) == WithKey(xs, key, k)
  {
    if |xs| > 0 {
      SortDescStable(xs[1..], key, k);
      InsertWithKey(xs[0], SortDesc(xs[1..], key), key, k);
    }
  }

  lemma SortDescLength<T>(xs: seq<T>, key: T -> int)
    ensures |SortDesc(xs, key)| == |xs|
  {
    SortDescPermutation(xs, key);
    assert |multiset(SortDesc(xs, key))| == |multiset(xs)|;
  }

  /** A filter keeps the order: what it keeps of a sorted sequence is sorted. */
  lemma {:induction false} FilterSorted<T>(xs: seq<T>, p: T -> bool, key: T -> int)
    requires SortedDesc(xs, key)
    ensures SortedDesc(Filter(xs, p), key)
  {
    if |xs| > 0 {
      var tail := xs[1..];
      assert SortedDesc(tail, key) by {
        forall i, j | 0 <= i < j < |tail| ensures key(tail[i]) >= key(tail[j]) {
          assert tail[i] == xs[i + 1] && tail[j] == xs[j + 1];
        }
      }
      FilterSorted(tail, p, key);
      var r := Filter(tail, p);
      forall k | 0 <= k < |r| ensures key(r[k]) <= key(xs[0]) {
        FilterMembers(tail, p, r[k]);
        var m :| 0 <= m < |tail| && tail[m] == r[k];
        assert tail[m] == xs[m + 1];
      }
      if p(xs[0]) {
        var out := [xs[0]] + r;
        forall i, j | 0 <= i < j < |out| ensures key(out[i]) >= key(out[j]) {
          assert out[j] == r[j - 1];
          if i > 0 {
            assert out[i] == r[i - 1];
          }
        }
      }
    }
  }
}
