/**
 * String helpers standing in for the .NET library calls the core relies on:
 * ordinal case-insensitive comparison, the regular-expression class `\w`,
 * and the ordinal searches `IndexOf`, `LastIndexOf`, `StartsWith`, `EndsWith`.
 */
module Text {

  /** The word-character class `\w`, restricted to ASCII letters, digits and `_`. */
  predicate IsWordChar(c: char) {
    ('a' <= c <= 'z') || ('A' <= c <= 'Z') || ('0' <= c <= '9') || c == '_'
  }

  /** Per-character upper-casing, the normal form behind OrdinalIgnoreCase (ASCII letters only). */
  function UpperChar(c: char): char {
    if 'a' <= c <= 'z' then (c as int - 32) as char else c
  }

  function Fold(s: string): (r: string)
    ensures |r| == |s|
    ensures forall i :: 0 <= i < |s| ==> r[i] == UpperChar(s[i])
  {
    seq(|s|, i requires 0 <= i < |s| => UpperChar(s[i]))
  }

  /** `StringComparer.OrdinalIgnoreCase.Equals(a, b)`. */
  predicate EqualsIgnoreCase(a: string, b: string) {
    Fold(a) == Fold(b)
  }

  /** `s.StartsWith(p, StringComparison.OrdinalIgnoreCase)`. */
  predicate StartsWithIgnoreCase(s: string, p: string) {
    |p| <= |s| && EqualsIgnoreCase(s[..|p|], p)
  }

  predicate StartsWith(s: string, p: string) {
    |p| <= |s| && s[..|p|] == p
  }

  predicate EndsWith(s: string, p: string) {
    |p| <= |s| && s[|s| - |p|..] == p
  }

  predicate OccursAt(s: string, p: string, i: int) {
    0 <= i && i + |p| <= |s| && s[i..i + |p|] == p
  }

  /** Index of the first occurrence of `p` in `s` at or after `from`, or -1. */
  function IndexOfFrom(s: string, p: string, from: nat): (r: int)
    requires from <= |s|
    ensures r == -1 || (from <= r && OccursAt(s, p, r))
    ensures r == -1 ==> forall i :: from <= i <= |s| ==> !OccursAt(s, p, i)
    ensures r != -1 ==> forall i :: from <= i < r ==> !OccursAt(s, p, i)
    decreases |s| - from
  {
    if OccursAt(s, p, from) then from
    else if from == |s| then -1
    else IndexOfFrom(s, p, from + 1)
  }

  /** `s.IndexOf(p)`: the first occurrence of `p`, or -1. */
  function IndexOf(s: string, p: string): (r: int)
    ensures r == -1 <==> forall i :: 0 <= i <= |s| ==> !OccursAt(s, p, i)
    ensures r != -1 ==> OccursAt(s, p, r) && forall i :: 0 <= i < r ==> !OccursAt(s, p, i)
  {
    IndexOfFrom(s, p, 0)
  }

  /** Index of the last occurrence of `p` in `s` starting at or before `upTo`, or -1. */
  function LastIndexOfUpTo(s: string, p: string, upTo: nat): (r: int)
    requires upTo <= |s|
    ensures r == -1 || (r <= upTo && OccursAt(s, p, r))
    ensures r == -1 ==> forall i :: 0 <= i <= upTo ==> !OccursAt(s, p, i)
    ensures r != -1 ==> forall i :: r < i <= upTo ==> !OccursAt(s, p, i)
  {
    if OccursAt(s, p, upTo) then upTo
    else if upTo == 0 then -1
    else LastIndexOfUpTo(s, p, upTo - 1)
  }

  /** `s.LastIndexOf(p)`: the last occurrence of `p`, or -1. */
  function LastIndexOf(s: string, p: string): (r: int)
    ensures r == -1 <==> forall i :: 0 <= i <= |s| ==> !OccursAt(s, p, i)
    ensures r != -1 ==> OccursAt(s, p, r) && forall i :: r < i <= |s| ==> !OccursAt(s, p, i)
  {
    LastIndexOfUpTo(s, p, |s|)
  }
}
