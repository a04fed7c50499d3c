/** Generic sequence helpers: order-preserving filtering (Python list
    comprehensions with an `if` clause) and first-occurrence positions. */
module Seqs {

  /** The elements of `xs` that satisfy `p`, in their original order. */
  function Filter<T>(xs: seq<T>, p: T -> bool): (r: seq<T>)
    ensures |r| <= |xs|
  {
    if xs == [] then []
    else (if p(xs[0]) then [xs[0]] else []) + Filter(xs[1..], p)
  }

  /** An element survives filtering exactly when it occurs and passes. */
  lemma {:induction false} FilterMembership<T>(xs: seq<T>, p: T -> bool, x: T)
    ensures x in Filter(xs, p) <==> x in xs && p(x)
  {
    if xs != [] {
      FilterMembership(xs[1..], p, x);
      assert xs == [xs[0]] + xs[1..];
    }
  }

  /** Every survivor of filtering passes the test. */
  lemma {:induction false} FilterPasses<T>(xs: seq<T>, p: T -> bool, i: int)
    requires 0 <= i < |Filter(xs, p)|
    ensures p(Filter(xs, p)[i]) && Filter(xs, p)[i] in xs
  {
    FilterMembership(xs, p, Filter(xs, p)[i]);
  }

  /** Filtering keeps exactly the elements that pass the test, stated over
      positions: every survivor is an element of the input that passes, and
      every element of the input that passes survives. */
  lemma {:induction false} FilterExactly<T>(xs: seq<T>, p: T -> bool)
    ensures forall i :: 0 <= i < |Filter(xs, p)| ==> Filter(xs, p)[i] in xs && p(Filter(xs, p)[i])
    ensures forall i :: 0 <= i < |xs| && p(xs[i]) ==> xs[i] in Filter(xs, p)
  {
    forall i | 0 <= i < |Filter(xs, p)|
      ensures Filter(xs, p)[i] in xs && p(Filter(xs, p)[i])
    {
      FilterPasses(xs, p, i);
    }
    forall i | 0 <= i < |xs| && p(xs[i])
      ensures xs[i] in Filter(xs, p)
    {
      FilterMembership(xs, p, xs[i]);
    }
  }

  /** Filtering unfolded at the front of a sequence. */
  lemma {:induction false} FilterCons<T>(x: T, xs: seq<T>, p: T -> bool)
    ensures Filter([x] + xs, p) == (if p(x) then [x] else []) + Filter(xs, p)
  {
    assert ([x] + xs)[1..] == xs;
  }

  /** `rank` strictly increases along `xs`. */
  ghost predicate IncreasingBy<T>(xs: seq<T>, rank: T -> int) {
    forall i, j :: 0 <= i < j < |xs| ==> rank(xs[i]) < rank(xs[j])
  }

  /** Filtering keeps the relative order of the survivors. */
  lemma {:induction false} FilterKeepsOrder<T>(xs: seq<T>, p: T -> bool, rank: T -> int)
    requires IncreasingBy(xs, rank)
    ensures IncreasingBy(Filter(xs, p), rank)
  {
    if xs != [] {
      FilterKeepsOrder(xs[1..], p, rank);
      var tail := Filter(xs[1..], p);
      forall k | 0 <= k < |tail|
        ensures rank(xs[0]) < rank(tail[k])
      {
        FilterPasses(xs[1..], p, k);
        var j :| 0 <= j < |xs[1..]| && xs[1..][j] == tail[k];
        assert xs[j + 1] == tail[k];
      }
    }
  }

  /** Filtering twice, the second time by a stronger condition, is filtering
      once by the stronger condition. */
  lemma {:induction false} FilterOfFilter<T>(xs: seq<T>, p: T -> bool, q: T -> bool)
    requires forall x :: p(x) ==> q(x)
    ensures Filter(Filter(xs, q), p) == Filter(xs, p)
  {
    if xs != [] {
      FilterOfFilter(xs[1..], p, q);
      var head := if q(xs[0]) then [xs[0]] else [];
      assert Filter(xs, q) == head + Filter(xs[1..], q);
      FilterAppend(head, Filter(xs[1..], q), p);
    }
  }

  /** Filtering distributes over concatenation. */
  lemma {:induction false} FilterAppend<T>(xs: seq<T>, ys: seq<T>, p: T -> bool)
    ensures Filter(xs + ys, p) == Filter(xs, p) + Filter(ys, p)
  {
    if xs != [] {
      assert (xs + ys)[1..] == xs[1..] + ys;
      FilterAppend(xs[1..], ys, p);
    } else {
      assert xs + ys == ys;
    }
  }

  /** Filtering keeps every occurrence of a passing element and none of a
      failing one. */
  lemma {:induction false} FilterCount<T>(xs: seq<T>, p: T -> bool, x: T)
    ensures multiset(Filter(xs, p))[x] == if p(x) then multiset(xs)[x] else 0
  {
    if xs != [] {
      FilterCount(xs[1..], p, x);
      assert xs == [xs[0]] + xs[1..];
    }
  }

  /** Filtering a sequence whose every element passes changes nothing. */
  lemma {:induction false} FilterAllPass<T>(xs: seq<T>, p: T -> bool)
    requires forall i :: 0 <= i < |xs| ==> p(xs[i])
    ensures Filter(xs, p) == xs
  {
    if xs != [] {
      FilterAllPass(xs[1..], p);
      assert [xs[0]] + xs[1..] == xs;
    }
  }

  /** The position of the first occurrence of `x` in `xs`, or `|xs|` when
      `x` does not occur (the position a fresh key would be appended at). */
  function FirstIndex<T(==)>(xs: seq<T>, x: T): (i: nat)
    ensures i <= |xs|
    ensures i < |xs| <==> x in xs
    ensures i < |xs| ==> xs[i] == x
  {
    if xs == [] then 0
    else if xs[0] == x then 0
    else 1 + FirstIndex(xs[1..], x)
  }

  /** No occurrence of `x` comes before its first occurrence. */
  lemma {:induction false} FirstIndexIsFirst<T>(xs: seq<T>, x: T, k: int)
    requires 0 <= k < FirstIndex(xs, x)
    ensures xs[k] != x
  {
    if k > 0 {
      FirstIndexIsFirst(xs[1..], x, k - 1);
    }
  }

  /** The first occurrence unfolded at the front of a sequence. */
  lemma {:induction false} FirstIndexCons<T>(x: T, rest: seq<T>, u: T)
    ensures FirstIndex([x] + rest, u) == if x == u then 0 else 1 + FirstIndex(rest, u)
  {
    assert ([x] + rest)[1..] == rest;
  }

  /** Filtering keeps the order of first occurrences: of two passing
      elements, one first occurs before the other in the filtered sequence
      exactly when it does in the input. */
  lemma {:induction false} FilterFirstIndex<T>(xs: seq<T>, p: T -> bool, u: T, v: T)
    requires p(u) && p(v) && u in xs && v in xs
    ensures FirstIndex(Filter(xs, p), u) < FirstIndex(Filter(xs, p), v)
        <==> FirstIndex(xs, u) < FirstIndex(xs, v)
  {
    var x := xs[0];
    var rest := xs[1..];
    var fr := Filter(rest, p);
    assert xs == [x] + rest;
    FilterCons(x, rest, p);
    FirstIndexCons(x, rest, u);
    FirstIndexCons(x, rest, v);
    if p(x) {
      assert Filter(xs, p) == [x] + fr;
      FirstIndexCons(x, fr, u);
      FirstIndexCons(x, fr, v);
    } else {
      assert Filter(xs, p) == fr;
    }
    if x != u && x != v {
      FilterFirstIndex(rest, p, u, v);
    }
  }

  /** Appending an element leaves earlier first occurrences where they were
      and places a new value's first occurrence at the end. */
  lemma {:induction false} FirstIndexAppend<T>(xs: seq<T>, y: T, x: T)
    ensures x in xs ==> FirstIndex(xs + [y], x) == FirstIndex(xs, x)
    ensures x !in xs && x == y ==> FirstIndex(xs + [y], x) == |xs|
  {
    if xs != [] {
      assert (xs + [y])[1..] == xs[1..] + [y];
      FirstIndexAppend(xs[1..], y, x);
    }
  }
}
