/** Character classes behind Python's `str.lower`, the regular-expression
    classes `\w` and `\s`, and `str.split()`, restricted to ASCII: every
    character outside ASCII is treated as neither a word character nor
    whitespace and is left unchanged by lower-casing. */
module Chars {

  /** ASCII whitespace as Python counts it: tab, line feed, vertical tab,
      form feed, carriage return, the four information separators and space. */
  predicate IsSpace(c: char) {
    var n := c as int;
    n == 32 || 9 <= n <= 13 || 28 <= n <= 31
  }

  predicate IsUpper(c: char) {
    'A' <= c <= 'Z'
  }

  /** ASCII `\w`: letters, digits and the underscore. */
  predicate IsWordChar(c: char) {
    'a' <= c <= 'z' || IsUpper(c) || '0' <= c <= '9' || c == '_'
  }

  /** The ASCII capitals and, at the same positions, their small letters. */
  const Capitals: string := "ABCDEFGHIJKLMNOPQRSTUVWXYZ"
  const Smalls: string := "abcdefghijklmnopqrstuvwxyz"

  /** Lower-cases one character. */
  function LowerChar(c: char): (d: char)
    ensures forall k :: 0 <= k < |Capitals| && c == Capitals[k] ==> d == Smalls[k]
    ensures !IsUpper(d)
    ensures !IsUpper(c) ==> d == c
    ensures IsWordChar(d) <==> IsWordChar(c)
    ensures IsSpace(d) <==> IsSpace(c)
  {
    if IsUpper(c) then (c as int - 'A' as int + 'a' as int) as char else c
  }

  /** `str.lower`, character by character. */
  function Lower(s: string): (r: string)
    ensures |r| == |s|
    ensures forall i :: 0 <= i < |s| ==> r[i] == LowerChar(s[i])
  {
    seq(|s|, i requires 0 <= i < |s| => LowerChar(s[i]))
  }

  /** Two characters that are equal, or that are the capital and the small
      form of the same letter. */
  ghost predicate SameLetter(c: char, d: char) {
    c == d ||
    (IsUpper(c) && d == Smalls[c as int - 'A' as int]) ||
    (IsUpper(d) && c == Smalls[d as int - 'A' as int])
  }

  /** Two texts that differ at most in the case of their letters. */
  ghost predicate SameUpToCase(a: string, b: string) {
    |a| == |b| && forall i :: 0 <= i < |a| ==> SameLetter(a[i], b[i])
  }

  /** Entry `k` of the tables is the `k`-th letter of the alphabet. */
  lemma {:induction false} TableAt(k: int)
    requires 0 <= k < |Capitals|
    ensures Capitals[k] == ('A' as int + k) as char
    ensures Smalls[k] == ('a' as int + k) as char
  {
  }

  /** Two characters lower-case to the same character exactly when they are
      the same letter up to case. */
  lemma {:induction false} LowerCharEqual(c: char, d: char)
    ensures LowerChar(c) == LowerChar(d) <==> SameLetter(c, d)
  {
    if IsUpper(c) {
      TableAt(c as int - 'A' as int);
    }
    if IsUpper(d) {
      TableAt(d as int - 'A' as int);
    }
  }

  /** Two texts of the same length lower-case to the same text exactly when
      they differ at most in the case of their letters. */
  lemma {:induction false} LowerEqual(a: string, b: string)
    requires |a| == |b|
    ensures Lower(a) == Lower(b) <==> SameUpToCase(a, b)
  {
    forall i | 0 <= i < |a|
      ensures LowerChar(a[i]) == LowerChar(b[i]) <==> SameLetter(a[i], b[i])
    {
      LowerCharEqual(a[i], b[i]);
    }
    if SameUpToCase(a, b) {
      assert forall i :: 0 <= i < |a| ==> Lower(a)[i] == Lower(b)[i];
    }
    if Lower(a) == Lower(b) {
      assert forall i :: 0 <= i < |a| ==> Lower(a)[i] == Lower(b)[i];
    }
  }

  /** A lower-cased text holds no upper-case letter. */
  lemma {:induction false} LowerHasNoUpper(s: string, c: char)
    requires c in Lower(s)
    ensures !IsUpper(c) && LowerChar(c) == c
  {
  }

  /** Lower-casing twice is lower-casing once. */
  lemma {:induction false} LowerIdempotent(s: string)
    ensures Lower(Lower(s)) == Lower(s)
  {
  }
}
