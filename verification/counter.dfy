/** `collections.Counter` over a list of words, as an ordered association
    list: one entry per distinct word, in the order in which each word first
    occurs (the insertion order a Python dict keeps). */
module Counter {
  import Seqs

  /** One `(word, count)` item of the counter. */
  datatype Entry = Entry(key: string, count: nat)

  function Keys(es: seq<Entry>): (ks: seq<string>)
    ensures |ks| == |es|
  {
    seq(|es|, i requires 0 <= i < |es| => es[i].key)
  }

  ghost predicate DistinctKeys(es: seq<Entry>) {
    forall i, j :: 0 <= i < j < |es| ==> es[i].key != es[j].key
  }

  /** `counter[w] += 1`: increments the entry of `w`, or appends `w` with
      count one when it has no entry yet. */
  function Bump(es: seq<Entry>, w: string): (r: seq<Entry>)
    requires DistinctKeys(es)
    ensures |r| == if w in Keys(es) then |es| else |es| + 1
    ensures forall i :: 0 <= i < |es| ==>
      r[i].key == es[i].key && r[i].count == es[i].count + (if es[i].key == w then 1 else 0)
    ensures w !in Keys(es) ==> r[|es|] == Entry(w, 1)
  {
    if es == [] then [Entry(w, 1)]
    else if es[0].key == w then
      assert Keys(es)[0] == w;
      [Entry(w, es[0].count + 1)] + es[1..]
    else
      var rest := Bump(es[1..], w);
      assert Keys(es) == [es[0].key] + Keys(es[1..]);
      [es[0]] + rest
  }

  /** Counting a word keeps the keys distinct. */
  lemma {:induction false} BumpDistinct(es: seq<Entry>, w: string)
    requires DistinctKeys(es)
    ensures DistinctKeys(Bump(es, w))
  {
    var r := Bump(es, w);
    forall i, j | 0 <= i < j < |r|
      ensures r[i].key != r[j].key
    {
      assert r[i].key == es[i].key;
      if j < |es| {
        assert r[j].key == es[j].key;
      } else {
        assert Keys(es)[i] != w;
      }
    }
  }

  /** `Counter(ws)`, built by counting the words from first to last. */
  function Count(ws: seq<string>): (r: seq<Entry>)
    ensures |r| <= |ws|
    ensures DistinctKeys(r)
  {
    if ws == [] then []
    else
      var c := Count(ws[..|ws| - 1]);
      BumpDistinct(c, ws[|ws| - 1]);
      Bump(c, ws[|ws| - 1])
  }

  /** Each entry of `Counter(ws)` is a word of `ws` paired with the number
      of its occurrences in `ws`. */
  lemma {:induction false} CountExact(ws: seq<string>)
    ensures forall i :: 0 <= i < |Count(ws)| ==>
      Count(ws)[i].key in ws && Count(ws)[i].count == multiset(ws)[Count(ws)[i].key]
  {
    if ws != [] {
      var prefix := ws[..|ws| - 1];
      var w := ws[|ws| - 1];
      assert ws == prefix + [w];
      CountExact(prefix);
      var c := Count(prefix);
      var r := Bump(c, w);
      assert Count(ws) == r;
      forall i | 0 <= i < |r|
        ensures r[i].key in ws && r[i].count == multiset(ws)[r[i].key]
      {
        if i < |c| {
          assert c[i].key in prefix;
        } else {
          assert w !in prefix by {
            if w in prefix {
              CountComplete(prefix, w);
            }
          }
        }
      }
    }
  }

  /** Every word of `ws` has an entry in `Counter(ws)`. */
  lemma {:induction false} CountComplete(ws: seq<string>, v: string)
    requires v in ws
    ensures v in Keys(Count(ws))
  {
    var prefix := ws[..|ws| - 1];
    var w := ws[|ws| - 1];
    assert ws == prefix + [w];
    var c := Count(prefix);
    var r := Bump(c, w);
    assert Count(ws) == r;
    if v in prefix {
      CountComplete(prefix, v);
      var i :| 0 <= i < |c| && Keys(c)[i] == v;
      assert Keys(r)[i] == v;
    } else if v in Keys(c) {
      var i :| 0 <= i < |c| && Keys(c)[i] == v;
      assert Keys(r)[i] == v;
    } else {
      assert v == w;
      assert Keys(r)[|c|] == v;
    }
  }

  /** The entries of `Counter(ws)` appear in the order of their keys' first
      occurrences in `ws`. */
  lemma {:induction false} CountOrder(ws: seq<string>)
    ensures forall i, j :: 0 <= i < j < |Count(ws)| ==>
      Seqs.FirstIndex(ws, Count(ws)[i].key) < Seqs.FirstIndex(ws, Count(ws)[j].key)
  {
    if ws != [] {
      var prefix := ws[..|ws| - 1];
      var w := ws[|ws| - 1];
      assert ws == prefix + [w];
      CountOrder(prefix);
      CountExact(prefix);
      if w in prefix {
        CountComplete(prefix, w);
      }
      BumpKeepsOrder(prefix, w, Count(prefix));
    }
  }

  /** Counting one more word keeps the entries in first-occurrence order. */
  lemma {:induction false} BumpKeepsOrder(prefix: seq<string>, w: string, c: seq<Entry>)
    requires DistinctKeys(c)
    requires forall i :: 0 <= i < |c| ==> c[i].key in prefix
    requires w in prefix ==> w in Keys(c)
    requires forall i, j :: 0 <= i < j < |c| ==>
      Seqs.FirstIndex(prefix, c[i].key) < Seqs.FirstIndex(prefix, c[j].key)
    ensures forall i, j :: 0 <= i < j < |Bump(c, w)| ==>
      Seqs.FirstIndex(prefix + [w], Bump(c, w)[i].key) < Seqs.FirstIndex(prefix + [w], Bump(c, w)[j].key)
  {
    var r := Bump(c, w);
    var ws := prefix + [w];
    forall i, j | 0 <= i < j < |r|
      ensures Seqs.FirstIndex(ws, r[i].key) < Seqs.FirstIndex(ws, r[j].key)
    {
      assert r[i].key == c[i].key;
      FirstIndexKept(prefix, w, c[i].key);
      if j < |c| {
        assert r[j].key == c[j].key;
        FirstIndexKept(prefix, w, c[j].key);
      } else {
        assert w !in Keys(c) && r[j].key == w;
        Seqs.FirstIndexAppend(prefix, w, w);
      }
    }
  }

  /** A word of `prefix` keeps its first position when a word is appended. */
  lemma {:induction false} FirstIndexKept(prefix: seq<string>, w: string, k: string)
    requires k in prefix
    ensures Seqs.FirstIndex(prefix + [w], k) == Seqs.FirstIndex(prefix, k) < |prefix|
  {
    Seqs.FirstIndexAppend(prefix, w, k);
  }
}
