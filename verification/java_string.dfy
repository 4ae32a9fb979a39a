/**
 The few `java.lang.String` operations the jar-name inference relies on:
 `lastIndexOf` (for a character and for a string) and a character-for-character
 replacement, each stated by what it means rather than how it scans.
 */
module JavaString {

  /** `needle` occurs in `s` starting at index `i`. */
  predicate OccursAt(s: string, needle: string, i: int) {
    0 <= i && i + |needle| <= |s| && s[i..i + |needle|] == needle
  }

  /** The last start index `<= i` at which `needle` occurs in `s`, or -1. */
  function LastIndexFrom(s: string, needle: string, i: int): (r: int)
    requires -1 <= i
    ensures -1 <= r <= i
    ensures r >= 0 ==> OccursAt(s, needle, r)
    ensures forall j :: r < j <= i ==> !OccursAt(s, needle, j)
    decreases i + 1
  {
    if i < 0 then -1
    else if OccursAt(s, needle, i) then i
    else LastIndexFrom(s, needle, i - 1)
  }

  /**
   `s.lastIndexOf(needle)`: the start of the last occurrence of `needle` in `s`,
   or -1 when there is none.
   */
  function LastIndexOf(s: string, needle: string): (r: int)
    ensures r == -1 || OccursAt(s, needle, r)
    ensures forall j :: r < j ==> !OccursAt(s, needle, j)
  {
    if |needle| > |s| then -1 else LastIndexFrom(s, needle, |s| - |needle|)
  }

  /** `s.lastIndexOf(c)` for a character `c`. */
  function LastIndexOfChar(s: string, c: char): (r: int)
    ensures -1 <= r < |s|
    ensures r >= 0 ==> s[r] == c
    ensures forall j :: r < j < |s| ==> s[j] != c
  {
    var r := LastIndexOf(s, [c]);
    assert forall j :: 0 <= j < |s| ==> (OccursAt(s, [c], j) <==> s[j] == c) by {
      forall j | 0 <= j < |s| ensures OccursAt(s, [c], j) <==> s[j] == c {
        assert s[j..j + 1] == [s[j]];
      }
    }
    r
  }

  /** An occurrence of `needle` is the last one exactly when none starts after it. */
  lemma LastIndexOfUnique(s: string, needle: string, i: int)
    requires i == -1 || OccursAt(s, needle, i)
    requires forall j :: i < j ==> !OccursAt(s, needle, j)
    ensures LastIndexOf(s, needle) == i
  {
  }

  /** The character-version of the uniqueness lemma above. */
  lemma LastIndexOfCharUnique(s: string, c: char, i: int)
    requires -1 <= i < |s|
    requires i >= 0 ==> s[i] == c
    requires forall j :: i < j < |s| ==> s[j] != c
    ensures LastIndexOfChar(s, c) == i
  {
  }

  /** Occurrences in a suffix `b` of `a + b` are occurrences in `b`, shifted by `|a|`. */
  lemma {:induction false} OccursAtAppend(a: string, b: string, needle: string, k: int)
    requires 0 <= k
    ensures OccursAt(a + b, needle, |a| + k) <==> OccursAt(b, needle, k)
  {
    if k + |needle| <= |b| {
      assert (a + b)[|a| + k..|a| + k + |needle|] == b[k..k + |needle|];
    }
  }

  /** `s.replace(from, to)`: every `from` becomes `to`, all else is kept in place. */
  function ReplaceChar(s: string, from: char, to: char): (r: string)
    ensures |r| == |s|
    ensures forall i :: 0 <= i < |s| ==> r[i] == (if s[i] == from then to else s[i])
  {
    if s == [] then []
    else [if s[0] == from then to else s[0]] + ReplaceChar(s[1..], from, to)
  }

  /** After replacing `from` by a different character, no `from` is left. */
  lemma ReplaceCharRemoves(s: string, from: char, to: char)
    requires from != to
    ensures from !in ReplaceChar(s, from, to)
  {
  }
}
