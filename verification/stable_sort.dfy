/** A stable sort by an integer key, as Python's `sorted` performs it.
    `sorted(xs, key=k)` is `Sort(xs, k)`; `sorted(xs, key=k, reverse=True)`
    keeps equal keys in their original order too, so it is `Sort(xs, x => -k(x))`. */
module StableSort {
  import Seqs

  /** `key` does not decrease along `xs`. */
  ghost predicate SortedBy<T>(xs: seq<T>, key: T -> int) {
    forall i, j :: 0 <= i < j < |xs| ==> key(xs[i]) <= key(xs[j])
  }

  /** Among elements of equal key, `rank` strictly increases along `xs`. */
  ghost predicate TiesOrderedBy<T>(xs: seq<T>, key: T -> int, rank: T -> int) {
    forall i, j :: 0 <= i < j < |xs| && key(xs[i]) == key(xs[j]) ==> rank(xs[i]) < rank(xs[j])
  }

  /** Places `x` in front of the first element whose key is at least its own. */
  function Insert<T>(x: T, ys: seq<T>, key: T -> int): (r: seq<T>)
    ensures |r| == |ys| + 1
    ensures multiset(r) == multiset(ys) + multiset{x}
  {
    if ys == [] || key(x) <= key(ys[0]) then [x] + ys
    else
      assert ys == [ys[0]] + ys[1..];
      [ys[0]] + Insert(x, ys[1..], key)
  }

  /** Every element of `Insert(x, ys, key)` is `x` or an element of `ys`. */
  lemma {:induction false} InsertElements<T>(x: T, ys: seq<T>, key: T -> int, i: int)
    requires 0 <= i < |Insert(x, ys, key)|
    ensures Insert(x, ys, key)[i] == x || Insert(x, ys, key)[i] in ys
  {
    var r := Insert(x, ys, key);
    assert r[i] in multiset(r);
  }

  /** Inserting into a sorted sequence leaves it sorted. */
  lemma {:induction false} InsertSorted<T>(x: T, ys: seq<T>, key: T -> int)
    requires SortedBy(ys, key)
    ensures SortedBy(Insert(x, ys, key), key)
  {
    if ys != [] && key(x) > key(ys[0]) {
      InsertSorted(x, ys[1..], key);
      var rest := Insert(x, ys[1..], key);
      forall k | 0 <= k < |rest|
        ensures key(ys[0]) <= key(rest[k])
      {
        InsertElements(x, ys[1..], key, k);
        if rest[k] != x {
          var m :| 0 <= m < |ys[1..]| && ys[1..][m] == rest[k];
          assert ys[m + 1] == rest[k];
        }
      }
    }
  }

  /** Stable insertion sort, ascending by `key`. */
  function Sort<T>(xs: seq<T>, key: T -> int): (r: seq<T>)
    ensures |r| == |xs|
    ensures multiset(r) == multiset(xs)
    ensures SortedBy(r, key)
  {
    if xs == [] then []
    else
      assert xs == [xs[0]] + xs[1..];
      InsertSorted(xs[0], Sort(xs[1..], key), key);
      Insert(xs[0], Sort(xs[1..], key), key)
  }

  /** Every element of the sorted sequence comes from the input, and back. */
  lemma {:induction false} SortSameElements<T>(xs: seq<T>, key: T -> int, x: T)
    ensures x in Sort(xs, key) <==> x in xs
  {
    assert x in multiset(Sort(xs, key)) <==> x in multiset(xs);
  }

  /** Inserting `x` keeps the tie order when `x` ranks below every element of
      equal key already present. */
  lemma {:induction false} InsertKeepsTieOrder<T>(x: T, ys: seq<T>, key: T -> int, rank: T -> int)
    requires TiesOrderedBy(ys, key, rank)
    requires forall i :: 0 <= i < |ys| && key(ys[i]) == key(x) ==> rank(x) < rank(ys[i])
    ensures TiesOrderedBy(Insert(x, ys, key), key, rank)
  {
    if ys == [] || key(x) <= key(ys[0]) {
    } else {
      InsertKeepsTieOrder(x, ys[1..], key, rank);
      var rest := Insert(x, ys[1..], key);
      var r := [ys[0]] + rest;
      forall i, j | 0 <= i < j < |r| && key(r[i]) == key(r[j])
        ensures rank(r[i]) < rank(r[j])
      {
        if i == 0 {
          assert r[j] == rest[j - 1];
          InsertElements(x, ys[1..], key, j - 1);
          if rest[j - 1] != x {
            var k :| 0 <= k < |ys[1..]| && ys[1..][k] == rest[j - 1];
            assert ys[k + 1] == r[j];
          }
        }
      }
    }
  }

  /** Sorting keeps the tie order: elements of equal key leave the sort in
      the order they entered it. */
  lemma {:induction false} SortKeepsTieOrder<T>(xs: seq<T>, key: T -> int, rank: T -> int)
    requires TiesOrderedBy(xs, key, rank)
    ensures TiesOrderedBy(Sort(xs, key), key, rank)
  {
    if xs != [] {
      SortKeepsTieOrder(xs[1..], key, rank);
      var s := Sort(xs[1..], key);
      forall i | 0 <= i < |s| && key(s[i]) == key(xs[0])
        ensures rank(xs[0]) < rank(s[i])
      {
        SortSameElements(xs[1..], key, s[i]);
        var k :| 0 <= k < |xs[1..]| && xs[1..][k] == s[i];
        assert xs[k + 1] == s[i];
      }
      InsertKeepsTieOrder(xs[0], s, key, rank);
    }
  }

  /** The case of `FilterInsert` where `x` goes to the front. */
  lemma {:induction false} FilterInsertFront<T>(x: T, ys: seq<T>, key: T -> int, p: T -> bool)
    requires SortedBy(ys, key)
    requires ys == [] || key(x) <= key(ys[0])
    ensures Seqs.Filter(Insert(x, ys, key), p)
         == if p(x) then Insert(x, Seqs.Filter(ys, p), key) else Seqs.Filter(ys, p)
  {
    var fy := Seqs.Filter(ys, p);
    assert Insert(x, ys, key) == [x] + ys;
    Seqs.FilterCons(x, ys, p);
    if p(x) && fy != [] {
      Seqs.FilterPasses(ys, p, 0);
      var k :| 0 <= k < |ys| && ys[k] == fy[0];
      assert key(ys[0]) <= key(ys[k]);
    }
  }

  /** Filtering a sorted sequence and then inserting is inserting and then
      filtering. */
  lemma {:induction false} FilterInsert<T>(x: T, ys: seq<T>, key: T -> int, p: T -> bool)
    requires SortedBy(ys, key)
    ensures Seqs.Filter(Insert(x, ys, key), p)
         == if p(x) then Insert(x, Seqs.Filter(ys, p), key) else Seqs.Filter(ys, p)
  {
    if ys == [] || key(x) <= key(ys[0]) {
      FilterInsertFront(x, ys, key, p);
    } else {
      var fy := Seqs.Filter(ys, p);
      var rest := Insert(x, ys[1..], key);
      var ft := Seqs.Filter(ys[1..], p);
      assert Insert(x, ys, key) == [ys[0]] + rest;
      Seqs.FilterCons(ys[0], rest, p);
      Seqs.FilterCons(ys[0], ys[1..], p);
      assert [ys[0]] + ys[1..] == ys;
      FilterInsert(x, ys[1..], key, p);
      if p(x) && p(ys[0]) {
        assert fy == [ys[0]] + ft;
        assert ([ys[0]] + ft)[1..] == ft;
        assert Insert(x, fy, key) == [ys[0]] + Insert(x, ft, key);
      } else if p(x) {
        assert fy == ft;
        assert Seqs.Filter(Insert(x, ys, key), p) == Insert(x, ft, key);
      } else if p(ys[0]) {
        assert Seqs.Filter(Insert(x, ys, key), p) == [ys[0]] + ft;
      } else {
        assert Seqs.Filter(Insert(x, ys, key), p) == ft;
      }
    }
  }

  /** Filtering commutes with the stable sort: sorting the survivors gives
      the survivors of the sorted sequence, in the same order. */
  lemma {:induction false} FilterSortCommute<T>(xs: seq<T>, key: T -> int, p: T -> bool)
    ensures Seqs.Filter(Sort(xs, key), p) == Sort(Seqs.Filter(xs, p), key)
  {
    if xs != [] {
      var tail := Sort(xs[1..], key);
      var ft := Seqs.Filter(xs[1..], p);
      assert Sort(xs, key) == Insert(xs[0], tail, key);
      FilterSortCommute(xs[1..], key, p);
      FilterInsert(xs[0], tail, key, p);
      Seqs.FilterCons(xs[0], xs[1..], p);
      assert [xs[0]] + xs[1..] == xs;
      if p(xs[0]) {
        assert Seqs.Filter(xs, p) == [xs[0]] + ft;
        assert ([xs[0]] + ft)[1..] == ft;
        assert Sort(Seqs.Filter(xs, p), key) == Insert(xs[0], Sort(ft, key), key);
      } else {
        assert Seqs.Filter(xs, p) == ft;
      }
    }
  }
}
