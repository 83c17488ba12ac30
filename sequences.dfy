/**
 * `Array.prototype.filter` and the de-duplication done by
 * `[...new Set(xs)]`, with the facts the rest of the model uses about them.
 */
module Sequences {

  /** The elements of `xs` that satisfy `p`, in their order in `xs`. */
  function Filter<T>(xs: seq<T>, p: T -> bool): (r: seq<T>)
    ensures |r| <= |xs|
    ensures forall k :: 0 <= k < |r| ==> p(r[k])
  {
    if |xs| == 0 then []
    else (if p(xs[0]) then [xs[0]] else []) + Filter(xs[1..], p)
  }

  /** Filtering keeps every satisfying element with its multiplicity and drops every other one. */
  lemma {:induction false} FilterCount<T>(xs: seq<T>, p: T -> bool, x: T)
    ensures multiset(Filter(xs, p))[x] == if p(x) then multiset(xs)[x] else 0
  {
    if |xs| > 0 {
      FilterCount(xs[1..], p, x);
      assert xs == [xs[0]] + xs[1..];
    }
  }

  /**
   * `ys` is the subsequence of `xs` at the positions `idx`, taken in
   * increasing order: `ys` keeps the order of `xs`.
   */
  predicate Picks<T(==)>(idx: seq<nat>, ys: seq<T>, xs: seq<T>) {
    && |idx| == |ys|
    && (forall k :: 0 <= k < |idx| ==> idx[k] < |xs| && xs[idx[k]] == ys[k])
    && (forall i, j :: 0 <= i < j < |idx| ==> idx[i] < idx[j])
  }

  /**
   * Filtering keeps order: the result is the subsequence of `xs` at exactly
   * the positions whose element satisfies `p`.
   */
  lemma {:induction false} FilterKeepsOrder<T>(xs: seq<T>, p: T -> bool) returns (idx: seq<nat>)
    ensures Picks(idx, Filter(xs, p), xs)
    ensures forall i :: 0 <= i < |xs| ==> (i in idx <==> p(xs[i]))
  {
    if |xs| == 0 {
      idx := [];
    } else {
      var tail := xs[1..];
      var rest := FilterKeepsOrder(tail, p);
      assert xs == [xs[0]] + tail;
      PicksCons(xs[0], Filter(tail, p), tail, rest);
      if p(xs[0]) {
        idx := [0] + Shift(rest);
        assert Filter(xs, p) == [xs[0]] + Filter(tail, p);
      } else {
        idx := Shift(rest);
        assert Filter(xs, p) == Filter(tail, p);
      }
      forall i | 0 <= i < |xs| ensures i in idx <==> p(xs[i]) {
        ShiftMembers(rest, i);
        if i > 0 {
          assert xs[i] == tail[i - 1];
          assert i in idx <==> i in Shift(rest);
        }
      }
    }
  }

  /** Every position one further on. */
  function Shift(idx: seq<nat>): (r: seq<nat>)
    ensures |r| == |idx| && forall k :: 0 <= k < |idx| ==> r[k] == idx[k] + 1
  {
    seq(|idx|, k requires 0 <= k < |idx| => idx[k] + 1)
  }

  lemma ShiftMembers(idx: seq<nat>, i: nat)
    ensures i in Shift(idx) <==> i >= 1 && i - 1 in idx
  {
    if i >= 1 && i - 1 in idx {
      var k :| 0 <= k < |idx| && idx[k] == i - 1;
      assert Shift(idx)[k] == i;
    }
  }

  /** A subsequence of `tail` is one of `[x] + tail`, with or without `x` in front. */
  lemma PicksCons<T>(x: T, ys: seq<T>, tail: seq<T>, idx: seq<nat>)
    requires Picks(idx, ys, tail)
    ensures Picks(Shift(idx), ys, [x] + tail)
    ensures Picks([0] + Shift(idx), [x] + ys, [x] + tail)
  {
    var xs := [x] + tail;
    var sh := Shift(idx);
    forall k | 0 <= k < |sh| ensures sh[k] < |xs| && xs[sh[k]] == ys[k] {
      assert xs[idx[k] + 1] == tail[idx[k]];
    }
    var cons := [0] + sh;
    forall k | 0 <= k < |cons| ensures cons[k] < |xs| && xs[cons[k]] == ([x] + ys)[k] {
      if k > 0 {
        assert cons[k] == sh[k - 1];
      }
    }
    forall i, j | 0 <= i < j < |cons| ensures cons[i] < cons[j] {
      assert cons[j] == sh[j - 1];
      if i > 0 {
        assert cons[i] == sh[i - 1];
      }
    }
  }

  lemma FilterMembers<T>(xs: seq<T>, p: T -> bool, x: T)
    ensures x in Filter(xs, p) <==> x in xs && p(x)
  {
    FilterCount(xs, p, x);
  }

  /** A filter that every element passes changes nothing. */
  lemma {:induction false} FilterAll<T>(xs: seq<T>, p: T -> bool)
    requires forall k :: 0 <= k < |xs| ==> p(xs[k])
    ensures Filter(xs, p) == xs
  {
    if |xs| > 0 {
      FilterAll(xs[1..], p);
      assert xs == [xs[0]] + xs[1..];
    }
  }

  /** A filter that no element passes leaves nothing. */
  lemma {:induction false} FilterNone<T>(xs: seq<T>, p: T -> bool)
    requires forall k :: 0 <= k < |xs| ==> !p(xs[k])
    ensures Filter(xs, p) == []
  {
    if |xs| > 0 {
      FilterNone(xs[1..], p);
    }
  }

  lemma {:induction false} FilterConcat<T>(xs: seq<T>, ys: seq<T>, p: T -> bool)
    ensures Filter(xs + ys, p) == Filter(xs, p) + Filter(ys, p)
  {
    if |xs| == 0 {
      assert xs + ys == ys;
    } else {
      var head := if p(xs[0]) then [xs[0]] else [];
      assert Filter(xs + ys, p) == head + Filter(xs[1..] + ys, p) by {
        assert (xs + ys)[0] == xs[0];
        assert (xs + ys)[1..] == xs[1..] + ys;
      }
      FilterConcat(xs[1..], ys, p);
      assert head + (Filter(xs[1..], p) + Filter(ys, p)) == (head + Filter(xs[1..], p)) + Filter(ys, p);
    }
  }

  /** Filtering twice by the same test is filtering once. */
  lemma FilterIdempotent<T>(xs: seq<T>, p: T -> bool)
    ensures Filter(Filter(xs, p), p) == Filter(xs, p)
  {
    FilterAll(Filter(xs, p), p);
  }

  predicate Distinct<T(==)>(xs: seq<T>) {
    forall i, j :: 0 <= i < j < |xs| ==> xs[i] != xs[j]
  }

  /** Every element once, in the order of first occurrence, as a `Set` iterates. */
  function Dedup<T(==)>(xs: seq<T>): (r: seq<T>)
    ensures Distinct(r)
    ensures forall k :: 0 <= k < |r| ==> r[k] in xs
    ensures forall k :: 0 <= k < |xs| ==> xs[k] in r
  {
    if |xs| == 0 then []
    else
      var front := Dedup(xs[..|xs| - 1]);
      var last := xs[|xs| - 1];
      assert xs == xs[..|xs| - 1] + [last];
      if last in front then front else front + [last]
  }

  /** The position of the first occurrence of `x` in `xs`. */
  function FirstIndex<T(==)>(xs: seq<T>, x: T): (i: nat)
    requires x in xs
    ensures i < |xs| && xs[i] == x && x !in xs[..i]
  {
    if xs[0] == x then 0
    else
      var i := FirstIndex(xs[1..], x) + 1;
      assert xs[..i] == [xs[0]] + xs[1..][..i - 1];
      i
  }

  /** The de-duplicated elements appear in the order of their first occurrences. */
  lemma {:induction false} DedupOrder<T>(xs: seq<T>, i: nat, j: nat)
    requires i < j < |Dedup(xs)|
    ensures FirstIndex(xs, Dedup(xs)[i]) < FirstIndex(xs, Dedup(xs)[j])
  {
    var n := |xs|;
    var front := xs[..n - 1];
    var last := xs[n - 1];
    var d := Dedup(front);
    if j < |d| {
      DedupOrder(front, i, j);
      FirstIndexPrefix(xs, front, d[i]);
      FirstIndexPrefix(xs, front, d[j]);
    } else {
      assert Dedup(xs)[j] == last && last !in d;
      assert last !in front;
      FirstIndexPrefix(xs, front, d[i]);
      assert forall k :: 0 <= k < n - 1 ==> xs[k] == front[k];
    }
  }

  /** An element that is not first in its sequence is not the head. */
  lemma FirstIndexHead<T>(xs: seq<T>, h: seq<T>, tl: seq<T>, y: T)
    requires xs == h + tl && |h| <= 1 && y in xs && FirstIndex(xs, y) > 0
    ensures |h| == 1 ==> h[0] != y
  {
    if |h| == 1 {
      assert xs[0] == h[0];
    }
  }

  /** Past a head of at most one element other than `x`, first occurrences keep their order. */
  lemma FirstIndexPastHead<T>(xs: seq<T>, h: seq<T>, tl: seq<T>, x: T, y: T)
    requires xs == h + tl && |h| <= 1 && (|h| == 1 ==> h[0] != x)
    requires x in xs && y in xs && FirstIndex(xs, x) < FirstIndex(xs, y)
    ensures x in tl && y in tl && FirstIndex(tl, x) < FirstIndex(tl, y)
  {
    if |h| == 1 {
      assert xs[1..] == tl;
    } else {
      assert xs == tl;
    }
  }

  lemma FirstIndexPrefix<T>(xs: seq<T>, front: seq<T>, x: T)
    requires front <= xs && x in front
    ensures FirstIndex(xs, x) == FirstIndex(front, x)
  {
    assert forall k :: 0 <= k < |front| ==> front[k] == xs[k];
  }

  /** `Array.prototype.map`. */
  function Map<T, U>(xs: seq<T>, f: T -> U): (r: seq<U>)
    ensures |r| == |xs| && forall k :: 0 <= k < |xs| ==> r[k] == f(xs[k])
  {
    seq(|xs|, k requires 0 <= k < |xs| => f(xs[k]))
  }

  /** Filtering the mapped sequence by a test that agrees with `p` is mapping the filtered one. */
  lemma {:induction false} FilterMap<T, U>(xs: seq<T>, p: T -> bool, f: T -> U, q: U -> bool)
    requires forall k :: 0 <= k < |xs| ==> p(xs[k]) == q(f(xs[k]))
    ensures Filter(Map(xs, f), q) == Map(Filter(xs, p), f)
  {
    if |xs| > 0 {
      FilterMap(xs[1..], p, f, q);
      assert Map(xs, f)[1..] == Map(xs[1..], f);
    }
  }

  /** Every element at most once. */
  lemma {:induction false} DistinctAtMostOnce<T>(xs: seq<T>)
    requires Distinct(xs)
    ensures forall x :: multiset(xs)[x] <= 1
  {
    if |xs| > 0 {
      var tail := xs[1..];
      assert forall k :: 0 <= k < |tail| ==> tail[k] == xs[k + 1];
      DistinctAtMostOnce(tail);
      assert xs == [xs[0]] + tail;
      assert xs[0] !in tail;
    }
  }

  lemma AtMostOnceDistinct<T>(xs: seq<T>)
    requires forall x :: multiset(xs)[x] <= 1
    ensures Distinct(xs)
  {
    forall i, j | 0 <= i < j < |xs| ensures xs[i] != xs[j] {
      TwoPositions(xs, i, j);
    }
  }

  /** Two equal elements at two positions count twice. */
  lemma TwoPositions<T>(xs: seq<T>, i: nat, j: nat)
    requires i < j < |xs|
    ensures xs[i] == xs[j] ==> multiset(xs)[xs[j]] >= 2
  {
    assert xs == xs[..j] + xs[j..];
    assert xs[i] in xs[..j];
    assert xs[j] == xs[j..][0];
  }

  lemma PrefixSnoc<T>(front: seq<T>, xs: seq<T>, j: nat)
    requires j < |xs|
    ensures front + xs[..j + 1] == (front + xs[..j]) + [xs[j]]
  {
    assert xs[..j + 1] == xs[..j] + [xs[j]];
  }

  /** The lists concatenated in order (`for (const l of ls) for (const x of l)`). */
  function Flatten<T>(ls: seq<seq<T>>): (r: seq<T>)
    ensures |ls| == 0 ==> r == []
  {
    if |ls| == 0 then [] else ls[0] + Flatten(ls[1..])
  }

  lemma {:induction false} FlattenSnoc<T>(ls: seq<seq<T>>, l: seq<T>)
    ensures Flatten(ls + [l]) == Flatten(ls) + l
  {
    if |ls| == 0 {
      assert ls + [l] == [l];
      assert [l][1..] == [];
    } else {
      FlattenSnoc(ls[1..], l);
      assert (ls + [l])[1..] == ls[1..] + [l];
    }
  }

  lemma {:induction false} FlattenMembers<T>(ls: seq<seq<T>>, x: T)
    ensures x in Flatten(ls) <==> exists i :: 0 <= i < |ls| && x in ls[i]
  {
    if |ls| > 0 {
      FlattenMembers(ls[1..], x);
      if x in ls[0] {
        assert x in ls[0] + Flatten(ls[1..]);
      } else {
        assert forall i :: 1 <= i < |ls| ==> ls[i] == ls[1..][i - 1];
      }
    }
  }
}
