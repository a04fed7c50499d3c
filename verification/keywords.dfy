/** The keyword-frequency analyser: lower-case the text, delete every
    character that is neither a word character nor whitespace, split on
    whitespace, drop stop words and words of at most two characters, count,
    keep the counts that reach the threshold, and order by descending count
    with ties left in first-occurrence order. */
module Keywords {
  import Seqs
  import StableSort
  import Chars
  import PyStr
  import Counter

  /** The fixed stop-word set. It lists "it's", which no word can equal:
      the apostrophe is deleted before words are compared with the set. */
  const StopWords: set<string> := {
    "the", "a", "an", "and", "or", "but", "is", "are", "was", "were",
    "has", "have", "had", "be", "been", "being", "in", "on", "at", "to",
    "for", "with", "by", "about", "like", "from", "of", "that", "this",
    "these", "those", "it", "its", "it's", "they", "them", "their",
    "we", "us", "our", "i", "my", "me", "mine", "you", "your", "yours"
  }

  /** The threshold used when the caller gives none. */
  const DefaultMinOccurrences: int := 3

  /** The characters the regular expression `[^\w\s]` does not match. */
  predicate IsWordOrSpace(c: char) {
    Chars.IsWordChar(c) || Chars.IsSpace(c)
  }

  /** Lower-casing followed by `re.sub(r'[^\w\s]', '', text)`. */
  function Normalize(text: string): (r: string)
    ensures forall i :: 0 <= i < |r| ==> IsWordOrSpace(r[i]) && !Chars.IsUpper(r[i])
    ensures forall i :: 0 <= i < |text| && IsWordOrSpace(text[i]) ==> Chars.LowerChar(text[i]) in r
  {
    var lowered := Chars.Lower(text);
    Seqs.FilterExactly(lowered, IsWordOrSpace);
    assert forall i :: 0 <= i < |text| ==> lowered[i] == Chars.LowerChar(text[i]);
    Seqs.Filter(lowered, IsWordOrSpace)
  }

  /** Normalising works character by character: it distributes over
      concatenation. */
  lemma {:induction false} NormalizeAppend(a: string, b: string)
    ensures Normalize(a + b) == Normalize(a) + Normalize(b)
  {
    assert Chars.Lower(a + b) == Chars.Lower(a) + Chars.Lower(b);
    Seqs.FilterAppend(Chars.Lower(a), Chars.Lower(b), IsWordOrSpace);
  }

  /** One character is kept, lower-cased, exactly when it is a word or
      whitespace character, and deleted otherwise. */
  lemma {:induction false} NormalizeChar(c: char)
    ensures Normalize([c]) == if IsWordOrSpace(c) then [Chars.LowerChar(c)] else []
  {
    assert Chars.Lower([c]) == [Chars.LowerChar(c)];
    assert [Chars.LowerChar(c)][1..] == [];
  }

  /** The words of the normalised text. */
  function Words(text: string): seq<string> {
    PyStr.Split(Normalize(text))
  }

  /** Whitespace in the text separates words: the words of `a + c + b` are
      the words of `a` followed by the words of `b`. */
  lemma {:induction false} WordsAtSpace(a: string, c: char, b: string)
    requires Chars.IsSpace(c)
    ensures Words(a + [c] + b) == Words(a) + Words(b)
  {
    NormalizeAppend(a + [c], b);
    NormalizeAppend(a, [c]);
    NormalizeChar(c);
    PyStr.SplitAtSpace(Normalize(a), Chars.LowerChar(c), Normalize(b));
  }

  /** A word that is kept for counting. */
  predicate IsCandidate(w: string) {
    w !in StopWords && |w| > 2
  }

  /** The filtered word list that is handed to `Counter`. */
  function FilteredWords(text: string): (r: seq<string>)
    ensures forall i :: 0 <= i < |r| ==> r[i] in Words(text) && IsCandidate(r[i])
    ensures forall i :: 0 <= i < |Words(text)| && IsCandidate(Words(text)[i]) ==> Words(text)[i] in r
  {
    Seqs.FilterExactly(Words(text), IsCandidate);
    Seqs.Filter(Words(text), IsCandidate)
  }

  /** The filter keeps every occurrence of a kept word, so `Counter` sees
      each candidate word as often as the text holds it, and no other word. */
  lemma {:induction false} FilteredWordsCount(text: string, w: string)
    ensures multiset(FilteredWords(text))[w] == if IsCandidate(w) then multiset(Words(text))[w] else 0
  {
    Seqs.FilterCount(Words(text), IsCandidate, w);
  }

  function AtLeast(m: int): Counter.Entry -> bool {
    (e: Counter.Entry) => e.count >= m
  }

  /** `{word: count for word, count in counts.items() if count >= m}`. */
  function Threshold(es: seq<Counter.Entry>, m: int): seq<Counter.Entry> {
    Seqs.Filter(es, AtLeast(m))
  }

  /** The threshold keeps exactly the entries whose count reaches it. */
  lemma {:induction false} ThresholdExactly(es: seq<Counter.Entry>, m: int)
    ensures forall i :: 0 <= i < |Threshold(es, m)| ==> Threshold(es, m)[i] in es && Threshold(es, m)[i].count >= m
    ensures forall i :: 0 <= i < |es| && es[i].count >= m ==> es[i] in Threshold(es, m)
  {
    Seqs.FilterExactly(es, AtLeast(m));
  }

  /** The sort key: `sorted(..., key=count, reverse=True)` is the stable
      ascending sort by the negated count. */
  function ByCountDesc(e: Counter.Entry): int {
    -(e.count as int)
  }

  /** `analyze_keywords(text, min_occurrences)`: the frequent words with
      their counts, most frequent first. */
  function AnalyzeKeywords(text: string, minOccurrences: int): (r: seq<Counter.Entry>)
    ensures |r| <= |FilteredWords(text)|
    ensures StableSort.SortedBy(r, ByCountDesc)
    ensures forall i :: 0 <= i < |r| ==> r[i].count >= minOccurrences
  {
    var t := Threshold(Counter.Count(FilteredWords(text)), minOccurrences);
    ThresholdExactly(Counter.Count(FilteredWords(text)), minOccurrences);
    SortedReachThreshold(t, minOccurrences);
    StableSort.Sort(t, ByCountDesc)
  }

  /** Sorting keeps every entry at or above the threshold. */
  lemma {:induction false} SortedReachThreshold(t: seq<Counter.Entry>, m: int)
    requires forall i :: 0 <= i < |t| ==> t[i].count >= m
    ensures forall i :: 0 <= i < |StableSort.Sort(t, ByCountDesc)| ==> StableSort.Sort(t, ByCountDesc)[i].count >= m
  {
    var r := StableSort.Sort(t, ByCountDesc);
    forall i | 0 <= i < |r|
      ensures r[i].count >= m
    {
      StableSort.SortSameElements(t, ByCountDesc, r[i]);
      var j :| 0 <= j < |t| && t[j] == r[i];
    }
  }

  /** What one entry of the result is made of. */
  lemma {:induction false} ResultEntry(text: string, m: int, i: int)
    requires 0 <= i < |AnalyzeKeywords(text, m)|
    ensures AnalyzeKeywords(text, m)[i] in Counter.Count(FilteredWords(text))
    ensures AnalyzeKeywords(text, m)[i].count >= m
    ensures AnalyzeKeywords(text, m)[i].key in FilteredWords(text)
    ensures AnalyzeKeywords(text, m)[i].count
         == multiset(FilteredWords(text))[AnalyzeKeywords(text, m)[i].key]
  {
    var c := Counter.Count(FilteredWords(text));
    var e := AnalyzeKeywords(text, m)[i];
    StableSort.SortSameElements(Threshold(c, m), ByCountDesc, e);
    Seqs.FilterMembership(c, AtLeast(m), e);
    Counter.CountExact(FilteredWords(text));
  }

  /** Every reported keyword survived the stop-word and length filter: it is
      a word of the filtered list, longer than two characters and not a stop
      word. */
  lemma {:induction false} KeysAreCandidates(text: string, m: int)
    ensures forall i :: 0 <= i < |AnalyzeKeywords(text, m)| ==>
      && AnalyzeKeywords(text, m)[i].key in FilteredWords(text)
      && |AnalyzeKeywords(text, m)[i].key| > 2
      && AnalyzeKeywords(text, m)[i].key !in StopWords
  {
    forall i | 0 <= i < |AnalyzeKeywords(text, m)|
      ensures AnalyzeKeywords(text, m)[i].key in FilteredWords(text)
      ensures IsCandidate(AnalyzeKeywords(text, m)[i].key)
    {
      ResultEntry(text, m, i);
      Seqs.FilterMembership(Words(text), IsCandidate, AnalyzeKeywords(text, m)[i].key);
    }
  }

  /** Every word of the text is a non-empty run of lower-case word
      characters. */
  lemma {:induction false} WordShape(text: string, k: int)
    requires 0 <= k < |Words(text)|
    ensures |Words(text)[k]| > 0
    ensures forall j :: 0 <= j < |Words(text)[k]| ==>
      Chars.IsWordChar(Words(text)[k][j]) && !Chars.IsUpper(Words(text)[k][j])
  {
    PyStr.SplitWords(Normalize(text), k);
    forall j | 0 <= j < |Words(text)[k]|
      ensures Chars.IsWordChar(Words(text)[k][j]) && !Chars.IsUpper(Words(text)[k][j])
    {
      var c := Words(text)[k][j];
      Seqs.FilterMembership(Chars.Lower(text), IsWordOrSpace, c);
      Chars.LowerHasNoUpper(text, c);
    }
  }

  /** No reported keyword is empty or holds whitespace, punctuation, a
      symbol or an upper-case letter. */
  lemma {:induction false} KeysAreWords(text: string, m: int)
    ensures forall i :: 0 <= i < |AnalyzeKeywords(text, m)| ==>
      && |AnalyzeKeywords(text, m)[i].key| > 0
      && forall j :: 0 <= j < |AnalyzeKeywords(text, m)[i].key| ==>
           Chars.IsWordChar(AnalyzeKeywords(text, m)[i].key[j])
           && !Chars.IsSpace(AnalyzeKeywords(text, m)[i].key[j])
           && !Chars.IsUpper(AnalyzeKeywords(text, m)[i].key[j])
  {
    forall i | 0 <= i < |AnalyzeKeywords(text, m)|
      ensures |AnalyzeKeywords(text, m)[i].key| > 0
      ensures forall j :: 0 <= j < |AnalyzeKeywords(text, m)[i].key| ==>
           Chars.IsWordChar(AnalyzeKeywords(text, m)[i].key[j])
           && !Chars.IsSpace(AnalyzeKeywords(text, m)[i].key[j])
           && !Chars.IsUpper(AnalyzeKeywords(text, m)[i].key[j])
    {
      var w := AnalyzeKeywords(text, m)[i].key;
      ResultEntry(text, m, i);
      Seqs.FilterMembership(Words(text), IsCandidate, w);
      var k :| 0 <= k < |Words(text)| && Words(text)[k] == w;
      WordShape(text, k);
    }
  }

  /** The reported counts are exact and clear the threshold, and every
      filtered word whose count clears the threshold is reported. */
  lemma {:induction false} CountsExact(text: string, m: int)
    ensures forall i :: 0 <= i < |AnalyzeKeywords(text, m)| ==>
      && AnalyzeKeywords(text, m)[i].count == multiset(FilteredWords(text))[AnalyzeKeywords(text, m)[i].key]
      && AnalyzeKeywords(text, m)[i].count >= m
    ensures forall w :: w in FilteredWords(text) && multiset(FilteredWords(text))[w] >= m ==>
      w in Counter.Keys(AnalyzeKeywords(text, m))
  {
    forall i | 0 <= i < |AnalyzeKeywords(text, m)|
      ensures AnalyzeKeywords(text, m)[i].count == multiset(FilteredWords(text))[AnalyzeKeywords(text, m)[i].key]
      ensures AnalyzeKeywords(text, m)[i].count >= m
    {
      ResultEntry(text, m, i);
    }
    forall w | w in FilteredWords(text) && multiset(FilteredWords(text))[w] >= m
      ensures w in Counter.Keys(AnalyzeKeywords(text, m))
    {
      var ws := FilteredWords(text);
      var c := Counter.Count(ws);
      Counter.CountComplete(ws, w);
      Counter.CountExact(ws);
      var j :| 0 <= j < |c| && Counter.Keys(c)[j] == w;
      Seqs.FilterMembership(c, AtLeast(m), c[j]);
      StableSort.SortSameElements(Threshold(c, m), ByCountDesc, c[j]);
      var r := AnalyzeKeywords(text, m);
      var i :| 0 <= i < |r| && r[i] == c[j];
      assert Counter.Keys(r)[i] == w;
    }
  }

  /** The result is ordered by non-increasing count, and entries of equal
      count keep the order in which their words first occur in the filtered
      word list (`Seqs.FirstIndex` is the first occurrence, as
      `Seqs.FirstIndexIsFirst` shows). */
  lemma {:induction false} SortedByCountThenFirstOccurrence(text: string, m: int)
    ensures forall i, j :: 0 <= i < j < |AnalyzeKeywords(text, m)| ==>
      AnalyzeKeywords(text, m)[i].count >= AnalyzeKeywords(text, m)[j].count
    ensures forall i, j ::
      0 <= i < j < |AnalyzeKeywords(text, m)| &&
      AnalyzeKeywords(text, m)[i].count == AnalyzeKeywords(text, m)[j].count ==>
      Seqs.FirstIndex(FilteredWords(text), AnalyzeKeywords(text, m)[i].key)
        < Seqs.FirstIndex(FilteredWords(text), AnalyzeKeywords(text, m)[j].key)
  {
    var ws := FilteredWords(text);
    var c := Counter.Count(ws);
    var rank := (e: Counter.Entry) => Seqs.FirstIndex(ws, e.key);
    Counter.CountOrder(ws);
    assert Seqs.IncreasingBy(c, rank);
    Seqs.FilterKeepsOrder(c, AtLeast(m), rank);
    var t := Threshold(c, m);
    assert StableSort.TiesOrderedBy(t, ByCountDesc, rank);
    StableSort.SortKeepsTieOrder(t, ByCountDesc, rank);
    var r := AnalyzeKeywords(text, m);
    assert StableSort.SortedBy(r, ByCountDesc);
    assert StableSort.TiesOrderedBy(r, ByCountDesc, rank);
  }

  /** Entries of equal count appear in the order in which their words first
      occur in the text: the filtered word list the tie order refers to keeps
      the order of the text's words. */
  lemma {:induction false} TiesInTextOrder(text: string, m: int)
    ensures forall i, j ::
      0 <= i < j < |AnalyzeKeywords(text, m)| &&
      AnalyzeKeywords(text, m)[i].count == AnalyzeKeywords(text, m)[j].count ==>
      Seqs.FirstIndex(Words(text), AnalyzeKeywords(text, m)[i].key)
        < Seqs.FirstIndex(Words(text), AnalyzeKeywords(text, m)[j].key)
  {
    var r := AnalyzeKeywords(text, m);
    var ws := Words(text);
    SortedByCountThenFirstOccurrence(text, m);
    KeysAreCandidates(text, m);
    forall i, j | 0 <= i < j < |r| && r[i].count == r[j].count
      ensures Seqs.FirstIndex(ws, r[i].key) < Seqs.FirstIndex(ws, r[j].key)
    {
      var u := r[i].key;
      var v := r[j].key;
      assert u in FilteredWords(text) && v in FilteredWords(text);
      assert u in ws && IsCandidate(u);
      assert v in ws && IsCandidate(v);
      Seqs.FilterFirstIndex(ws, IsCandidate, u, v);
    }
  }

  /** No keyword is reported twice. */
  lemma {:induction false} KeysDistinct(text: string, m: int)
    ensures Counter.DistinctKeys(AnalyzeKeywords(text, m))
  {
    CountsExact(text, m);
    SortedByCountThenFirstOccurrence(text, m);
  }

  /** Raising the threshold only drops entries: the result for the higher
      threshold is the result for the lower one without the entries below
      the higher threshold, with the same counts in the same order. */
  lemma {:induction false} ThresholdMonotone(text: string, m1: int, m2: int)
    requires m1 <= m2
    ensures AnalyzeKeywords(text, m2) == Threshold(AnalyzeKeywords(text, m1), m2)
  {
    var c := Counter.Count(FilteredWords(text));
    Seqs.FilterOfFilter(c, AtLeast(m2), AtLeast(m1));
    StableSort.FilterSortCommute(Threshold(c, m1), ByCountDesc, AtLeast(m2));
  }

  /** Letter case does not matter: two texts that differ only in the case
      of their letters ("Cat" and "cat") give the same keywords with the
      same counts in the same order. */
  lemma {:induction false} CaseInsensitive(a: string, b: string, m: int)
    requires Chars.SameUpToCase(a, b)
    ensures AnalyzeKeywords(a, m) == AnalyzeKeywords(b, m)
  {
    Chars.LowerEqual(a, b);
  }

  /** The stop word "it's" never matches: no word of any text holds an
      apostrophe, because the apostrophe is deleted before splitting. */
  lemma {:induction false} ApostropheStopWordUnreachable(text: string)
    ensures forall k :: 0 <= k < |Words(text)| ==> '\'' !in Words(text)[k]
    ensures "it's" in StopWords && "it's" !in Words(text)
  {
    forall k | 0 <= k < |Words(text)|
      ensures '\'' !in Words(text)[k]
    {
      WordShape(text, k);
    }
    assert "it's"[2] == '\'';
  }
}
