/** The correction-splicing part of `proofread_text`: the grammar checker's
    matches are applied to the text in increasing offset order, each one
    replacing its span by its first suggestion, while a running offset
    records how much earlier replacements have shifted the text. */
module Proofread {
  import opened Wrappers
  import StableSort
  import PyStr

  /** One finding of the grammar checker: the span `[offset, offset +
      errorLength)` of the original text and the suggested replacements,
      best first. */
  datatype Match = Match(offset: int, errorLength: int, replacements: seq<string>)

  /** The dictionary `proofread_text` returns. */
  datatype Proofread = Proofread(original: string, corrected: string, correctionCount: nat)

  function ByOffset(m: Match): int {
    m.offset
  }

  /** The loop over the sorted matches, from the current corrected text and
      running offset. A match without suggestions is skipped. */
  function Splice(corrected: string, delta: int, ms: seq<Match>): string
    decreases |ms|
  {
    if ms == [] then corrected
    else
      var m := ms[0];
      if m.replacements == [] then Splice(corrected, delta, ms[1..])
      else
        var replacement := m.replacements[0];
        var start := m.offset + delta;
        var end := m.offset + m.errorLength + delta;
        Splice(PyStr.Take(corrected, start) + replacement + PyStr.Drop(corrected, end),
               delta + |replacement| - m.errorLength, ms[1..])
  }

  /** `proofread_text(text)`, given what the grammar checker returned:
      `None` when the check raised, in which case the text comes back
      unchanged with no corrections. */
  function ProofreadText(text: string, check: Option<seq<Match>>): (r: Proofread)
    ensures r.original == text
    ensures check.None? ==> r.corrected == text && r.correctionCount == 0
    ensures check.Some? ==> r.correctionCount == |check.value|
  {
    match check
    case None => Proofread(text, text, 0)
    case Some(ms) => Proofread(text, Splice(text, 0, StableSort.Sort(ms, ByOffset)), |ms|)
  }

  /** Matches without suggestions leave the text as it is. */
  lemma {:induction false} SpliceWithoutReplacements(corrected: string, delta: int, ms: seq<Match>)
    requires forall i :: 0 <= i < |ms| ==> ms[i].replacements == []
    ensures Splice(corrected, delta, ms) == corrected
  {
    if ms != [] {
      SpliceWithoutReplacements(corrected, delta, ms[1..]);
    }
  }

  /** When no match carries a suggestion the corrected text is the original,
      while the correction count still counts every match. */
  lemma {:induction false} NoSuggestionsNoChange(text: string, ms: seq<Match>)
    requires forall i :: 0 <= i < |ms| ==> ms[i].replacements == []
    ensures ProofreadText(text, Some(ms)).corrected == text
    ensures ProofreadText(text, Some(ms)).correctionCount == |ms|
  {
    var sorted := StableSort.Sort(ms, ByOffset);
    forall i | 0 <= i < |sorted|
      ensures sorted[i].replacements == []
    {
      StableSort.SortSameElements(ms, ByOffset, sorted[i]);
    }
    SpliceWithoutReplacements(text, 0, sorted);
  }

  /** The matches, in the order given, cover disjoint spans inside the text,
      each starting at or after `pos`. */
  predicate Disjoint(ms: seq<Match>, pos: int, n: int) {
    ms == []
    || (&& pos <= ms[0].offset
        && 0 <= ms[0].errorLength
        && ms[0].offset + ms[0].errorLength <= n
        && Disjoint(ms[1..], ms[0].offset + ms[0].errorLength, n))
  }

  /** The intended corrected text, read off the original directly: the text
      from `pos` on, with each match's span replaced by its first suggestion
      and every other character kept. */
  function Rebuild(text: string, ms: seq<Match>, pos: nat): string
    requires pos <= |text|
    requires Disjoint(ms, pos, |text|)
    decreases |ms|
  {
    if ms == [] then text[pos..]
    else
      var m := ms[0];
      var end := m.offset + m.errorLength;
      text[pos..m.offset]
      + (if m.replacements == [] then text[m.offset..end] else m.replacements[0])
      + Rebuild(text, ms[1..], end)
  }

  /** One applied match, on a text whose first `|done|` characters are
      already corrected and whose rest is the original from `pos` on. */
  lemma {:induction false} SpliceStep(text: string, done: string, pos: nat, m: Match, replacement: string)
    requires pos <= m.offset && 0 <= m.errorLength && m.offset + m.errorLength <= |text|
    ensures var cur := done + text[pos..];
            var delta := |done| - pos;
            var end := m.offset + m.errorLength;
            && PyStr.Take(cur, m.offset + delta) + replacement + PyStr.Drop(cur, end + delta)
               == (done + text[pos..m.offset] + replacement) + text[end..]
            && delta + |replacement| - m.errorLength
               == |done + text[pos..m.offset] + replacement| - end
  {
    var cur := done + text[pos..];
    var delta := |done| - pos;
    var end := m.offset + m.errorLength;
    assert text[pos..] == text[pos..m.offset] + text[m.offset..];
    assert cur[..m.offset + delta] == done + text[pos..m.offset];
    assert cur[end + delta..] == text[end..];
  }

  /** One skipped match: its span is kept as it is. */
  lemma {:induction false} SkipStep(text: string, done: string, pos: nat, m: Match)
    requires pos <= m.offset && 0 <= m.errorLength && m.offset + m.errorLength <= |text|
    ensures var end := m.offset + m.errorLength;
            && done + text[pos..] == (done + text[pos..m.offset] + text[m.offset..end]) + text[end..]
            && |done| - pos == |done + text[pos..m.offset] + text[m.offset..end]| - end
  {
    var end := m.offset + m.errorLength;
    assert text[pos..] == text[pos..m.offset] + text[m.offset..end] + text[end..];
  }

  /** The first loop iteration, applied or skipped, moves the boundary
      between corrected and original text past the first match's span. */
  lemma {:induction false} SpliceFirst(text: string, done: string, pos: nat, ms: seq<Match>)
    requires pos <= |text|
    requires ms != [] && Disjoint(ms, pos, |text|)
    ensures var m := ms[0];
            var end := m.offset + m.errorLength;
            var kept := if m.replacements == [] then text[m.offset..end] else m.replacements[0];
            var done' := done + text[pos..m.offset] + kept;
            Splice(done + text[pos..], |done| - pos, ms)
              == Splice(done' + text[end..], |done'| - end, ms[1..])
  {
    var m := ms[0];
    if m.replacements == [] {
      SkipStep(text, done, pos, m);
    } else {
      SpliceStep(text, done, pos, m, m.replacements[0]);
    }
  }

  /** The running offset is exact: after splicing the matches before `pos`
      into `done`, the loop finishes the job the direct reading describes. */
  lemma {:induction false} SpliceRebuilds(text: string, done: string, pos: nat, ms: seq<Match>)
    requires pos <= |text|
    requires Disjoint(ms, pos, |text|)
    ensures Splice(done + text[pos..], |done| - pos, ms) == done + Rebuild(text, ms, pos)
    decreases |ms|
  {
    if ms != [] {
      var m := ms[0];
      var end := m.offset + m.errorLength;
      var kept := if m.replacements == [] then text[m.offset..end] else m.replacements[0];
      var done' := done + text[pos..m.offset] + kept;
      var tail := Rebuild(text, ms[1..], end);
      calc {
        Splice(done + text[pos..], |done| - pos, ms);
        == { SpliceFirst(text, done, pos, ms); }
        Splice(done' + text[end..], |done'| - end, ms[1..]);
        == { SpliceRebuilds(text, done', end, ms[1..]); }
        done' + tail;
        == { assert done' + tail == done + (text[pos..m.offset] + kept + tail); }
        done + (text[pos..m.offset] + kept + tail);
        == { assert Rebuild(text, ms, pos) == text[pos..m.offset] + kept + tail; }
        done + Rebuild(text, ms, pos);
      }
    }
  }

  /** When the sorted matches cover disjoint spans of the text, the corrected
      text is the original with every suggested span replaced by its first
      suggestion. */
  lemma {:induction false} CorrectedIsRebuilt(text: string, ms: seq<Match>)
    requires Disjoint(StableSort.Sort(ms, ByOffset), 0, |text|)
    ensures ProofreadText(text, Some(ms)).corrected
         == Rebuild(text, StableSort.Sort(ms, ByOffset), 0)
  {
    var sorted := StableSort.Sort(ms, ByOffset);
    calc {
      ProofreadText(text, Some(ms)).corrected;
      Splice(text, 0, sorted);
      { assert text == "" + text[0..]; }
      Splice("" + text[0..], |""| - 0, sorted);
      { SpliceRebuilds(text, "", 0, sorted); }
      "" + Rebuild(text, sorted, 0);
      Rebuild(text, sorted, 0);
    }
  }
}
