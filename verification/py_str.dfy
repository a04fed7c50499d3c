/** Python string operations the analyser relies on: `str.split(sep)`,
    `sep.join`, `str.split()` without arguments, `startswith`, and slicing
    with Python's clamping of out-of-range and negative bounds. */
module PyStr {
  import Seqs
  import Chars

  /** Splits `s` at every character satisfying `isSep`, keeping empty parts,
      as `s.split('/')` does for a one-character separator. */
  function SplitWhere(s: string, isSep: char -> bool): (r: seq<string>)
    ensures |r| >= 1
  {
    if s == [] then [""]
    else
      var rest := SplitWhere(s[1..], isSep);
      if isSep(s[0]) then [""] + rest
      else [[s[0]] + rest[0]] + rest[1..]
  }

  /** A split has one more part than the text has separators, and every
      part is made of characters of the text that are not separators. */
  lemma {:induction false} SplitWhereParts(s: string, isSep: char -> bool)
    ensures |SplitWhere(s, isSep)| == |Seqs.Filter(s, isSep)| + 1
    ensures forall k, i :: 0 <= k < |SplitWhere(s, isSep)| && 0 <= i < |SplitWhere(s, isSep)[k]| ==>
      SplitWhere(s, isSep)[k][i] in s && !isSep(SplitWhere(s, isSep)[k][i])
  {
    if s != [] {
      SplitWhereParts(s[1..], isSep);
      var rest := SplitWhere(s[1..], isSep);
      assert forall k, i :: 0 <= k < |rest| && 0 <= i < |rest[k]| ==> rest[k][i] in s;
    }
  }

  /** `sep.join(parts)`. */
  function Join(parts: seq<string>, sep: char): string {
    if |parts| == 0 then ""
    else if |parts| == 1 then parts[0]
    else parts[0] + [sep] + Join(parts[1..], sep)
  }

  /** Prefixing the first part prefixes the joined text. */
  lemma {:induction false} JoinConsFirst(c: char, parts: seq<string>, sep: char)
    requires |parts| >= 1
    ensures Join([[c] + parts[0]] + parts[1..], sep) == [c] + Join(parts, sep)
  {
    var ps := [[c] + parts[0]] + parts[1..];
    assert ps[1..] == parts[1..];
  }

  /** Joining the parts with the one separator character restores the text. */
  lemma {:induction false} JoinSplit(s: string, isSep: char -> bool, sep: char)
    requires forall c :: isSep(c) <==> c == sep
    ensures Join(SplitWhere(s, isSep), sep) == s
  {
    if s != [] {
      var rest := SplitWhere(s[1..], isSep);
      JoinSplit(s[1..], isSep, sep);
      if isSep(s[0]) {
        assert ([""] + rest)[1..] == rest;
        assert Join([""] + rest, sep) == [sep] + Join(rest, sep);
      } else {
        JoinConsFirst(s[0], rest, sep);
      }
      assert [s[0]] + s[1..] == s;
    }
  }

  /** A separator-free prefix stays glued to the first part of what follows. */
  lemma {:induction false} SplitFreePrefix(w: string, t: string, isSep: char -> bool)
    requires forall i :: 0 <= i < |w| ==> !isSep(w[i])
    ensures SplitWhere(w + t, isSep)
         == [w + SplitWhere(t, isSep)[0]] + SplitWhere(t, isSep)[1..]
  {
    if w != [] {
      SplitFreePrefix(w[1..], t, isSep);
      assert (w + t)[1..] == w[1..] + t;
      assert [w[0]] + (w[1..] + SplitWhere(t, isSep)[0]) == w + SplitWhere(t, isSep)[0];
    } else {
      assert w + t == t;
      assert w + SplitWhere(t, isSep)[0] == SplitWhere(t, isSep)[0];
      assert [SplitWhere(t, isSep)[0]] + SplitWhere(t, isSep)[1..] == SplitWhere(t, isSep);
    }
  }

  /** Splitting separator-free parts joined by a separator gives the parts back. */
  lemma {:induction false} SplitJoin(parts: seq<string>, isSep: char -> bool, sep: char)
    requires |parts| >= 1
    requires isSep(sep)
    requires forall k, i :: 0 <= k < |parts| && 0 <= i < |parts[k]| ==> !isSep(parts[k][i])
    ensures SplitWhere(Join(parts, sep), isSep) == parts
  {
    if |parts| == 1 {
      SplitFreePrefix(parts[0], "", isSep);
      assert parts[0] + "" == parts[0];
    } else {
      var t := [sep] + Join(parts[1..], sep);
      SplitJoin(parts[1..], isSep, sep);
      assert t[1..] == Join(parts[1..], sep);
      assert SplitWhere(t, isSep) == [""] + parts[1..];
      SplitFreePrefix(parts[0], t, isSep);
      assert parts[0] + t == Join(parts, sep);
      assert parts[0] + "" == parts[0];
      assert [parts[0]] + parts[1..] == parts;
    }
  }

  /** A separator-free prefix followed by a separator becomes a part of its own. */
  lemma {:induction false} SplitAtSeparator(w: string, sep: char, t: string, isSep: char -> bool)
    requires isSep(sep)
    requires forall i :: 0 <= i < |w| ==> !isSep(w[i])
    ensures SplitWhere(w + [sep] + t, isSep) == [w] + SplitWhere(t, isSep)
  {
    SplitFreePrefix(w, [sep] + t, isSep);
    assert w + [sep] + t == w + ([sep] + t);
    assert ([sep] + t)[1..] == t;
    assert w + "" == w;
  }

  /** The first part of a split is the longest separator-free prefix. */
  lemma {:induction false} FirstPart(s: string, isSep: char -> bool)
    ensures |SplitWhere(s, isSep)[0]| <= |s|
    ensures SplitWhere(s, isSep)[0] == s[..|SplitWhere(s, isSep)[0]|]
    ensures |SplitWhere(s, isSep)[0]| == |s| || isSep(s[|SplitWhere(s, isSep)[0]|])
  {
    if s != [] && !isSep(s[0]) {
      FirstPart(s[1..], isSep);
    }
  }

  predicate NonEmpty(w: string) {
    |w| > 0
  }

  /** `str.split()` without arguments: the maximal runs of non-whitespace
      characters, with no empty strings. */
  function Split(s: string): (r: seq<string>)
  {
    Seqs.Filter(SplitWhere(s, Chars.IsSpace), NonEmpty)
  }

  /** The words of `str.split()` are non-empty, hold no whitespace and are
      made of characters of the text. */
  lemma {:induction false} SplitWords(s: string, k: int)
    requires 0 <= k < |Split(s)|
    ensures |Split(s)[k]| > 0
    ensures forall i :: 0 <= i < |Split(s)[k]| ==> Split(s)[k][i] in s && !Chars.IsSpace(Split(s)[k][i])
  {
    var parts := SplitWhere(s, Chars.IsSpace);
    SplitWhereParts(s, Chars.IsSpace);
    Seqs.FilterPasses(parts, NonEmpty, k);
  }

  /** Words without whitespace, joined by single spaces, split back into
      themselves. */
  lemma {:induction false} SplitJoinWords(ws: seq<string>)
    requires forall k :: 0 <= k < |ws| ==> NonEmpty(ws[k])
    requires forall k, i :: 0 <= k < |ws| && 0 <= i < |ws[k]| ==> !Chars.IsSpace(ws[k][i])
    ensures Split(Join(ws, ' ')) == ws
  {
    if ws != [] {
      SplitJoin(ws, Chars.IsSpace, ' ');
      Seqs.FilterAllPass(ws, NonEmpty);
    }
  }

  /** Splitting unfolded at the first character. */
  lemma {:induction false} SplitWhereCons(x: char, t: string, isSep: char -> bool)
    ensures SplitWhere([x] + t, isSep)
         == if isSep(x) then [""] + SplitWhere(t, isSep)
            else [[x] + SplitWhere(t, isSep)[0]] + SplitWhere(t, isSep)[1..]
  {
    assert ([x] + t)[1..] == t;
  }

  /** A separator splits the text into what comes before it and what comes
      after it, each split on its own. */
  lemma {:induction false} SplitWhereAtSeparator(a: string, c: char, b: string, isSep: char -> bool)
    requires isSep(c)
    ensures SplitWhere(a + [c] + b, isSep) == SplitWhere(a, isSep) + SplitWhere(b, isSep)
  {
    if a == [] {
      assert a + [c] + b == [c] + b;
      SplitWhereCons(c, b, isSep);
    } else {
      SplitWhereAtSeparator(a[1..], c, b, isSep);
      assert a[1..] + [c] + b == a[1..] + ([c] + b);
      SplitWhereConsAppend(a[0], a[1..], [c] + b, SplitWhere(b, isSep), isSep);
      assert [a[0]] + a[1..] == a;
      assert [a[0]] + (a[1..] + ([c] + b)) == a + [c] + b;
    }
  }

  /** The inductive step: a first character that joins a split into parts
      `ra + rb` acts on `ra` alone. */
  lemma {:induction false} SplitWhereConsAppend(x: char, a: string, t: string, rb: seq<string>, isSep: char -> bool)
    requires SplitWhere(a + t, isSep) == SplitWhere(a, isSep) + rb
    ensures SplitWhere([x] + (a + t), isSep) == SplitWhere([x] + a, isSep) + rb
  {
    var ra := SplitWhere(a, isSep);
    SplitWhereCons(x, a + t, isSep);
    SplitWhereCons(x, a, isSep);
    if !isSep(x) {
      assert (ra + rb)[0] == ra[0];
      assert (ra + rb)[1..] == ra[1..] + rb;
    }
  }

  /** A whitespace character separates words: `(a + c + b).split()` is
      `a.split() + b.split()`, whatever runs of whitespace `a` and `b` hold
      at their ends. */
  lemma {:induction false} SplitAtSpace(a: string, c: char, b: string)
    requires Chars.IsSpace(c)
    ensures Split(a + [c] + b) == Split(a) + Split(b)
  {
    SplitWhereAtSeparator(a, c, b, Chars.IsSpace);
    Seqs.FilterAppend(SplitWhere(a, Chars.IsSpace), SplitWhere(b, Chars.IsSpace), NonEmpty);
  }

  /** A whitespace-free text is one word, or none when it is empty. Together
      with `SplitAtSpace` this fixes `str.split()` on every text. */
  lemma {:induction false} SplitRun(w: string)
    requires forall i :: 0 <= i < |w| ==> !Chars.IsSpace(w[i])
    ensures Split(w) == if w == [] then [] else [w]
  {
    SplitFreePrefix(w, "", Chars.IsSpace);
    assert w + "" == w;
    assert SplitWhere(w, Chars.IsSpace) == [w];
    assert [w][1..] == [];
  }

  /** Python's normalisation of a slice bound `i` for a string of length `n`:
      a negative bound counts from the end, and the result is clamped to
      `0..n`. */
  function SliceIndex(i: int, n: nat): (k: nat)
    ensures k <= n
    ensures 0 <= i <= n ==> k == i
  {
    if i < 0 then (if n + i < 0 then 0 else n + i)
    else if i > n then n
    else i
  }

  /** `s[:i]`. */
  function Take(s: string, i: int): string {
    s[..SliceIndex(i, |s|)]
  }

  /** `s[i:]`. */
  function Drop(s: string, i: int): string {
    s[SliceIndex(i, |s|)..]
  }

  /** Python's slicing of a string at bound `i`: `s[:i]` is a prefix of `s`
      and `s[i:]` a suffix; in range, the prefix has `i` characters; past
      the end, the prefix is all of `s` and the suffix empty; a negative
      bound counts from the end; below `-len(s)`, the prefix is empty and
      the suffix all of `s`. */
  lemma {:induction false} SliceBounds(s: string, i: int)
    ensures Take(s, i) <= s && Drop(s, i) == s[|s| - |Drop(s, i)|..]
    ensures 0 <= i <= |s| ==> |Take(s, i)| == i && |Drop(s, i)| == |s| - i
    ensures i > |s| ==> Take(s, i) == s && Drop(s, i) == []
    ensures -|s| <= i < 0 ==> |Take(s, i)| == |s| + i
    ensures i < -|s| ==> Take(s, i) == [] && Drop(s, i) == s
  {
  }

  /** `s[:i] + s[i:] == s` for every bound. */
  lemma {:induction false} TakeDrop(s: string, i: int)
    ensures Take(s, i) + Drop(s, i) == s
  {
  }

  /** `s.startswith(prefix)`. */
  function StartsWith(s: string, prefix: string): (b: bool)
    ensures b ==> |prefix| <= |s| && s == prefix + s[|prefix|..]
    ensures forall t :: s == prefix + t ==> b
  {
    |prefix| <= |s| && s[..|prefix|] == prefix
  }
}
