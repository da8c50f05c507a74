/**
 The string operations the Maven task relies on: `String.prototype.indexOf`,
 `includes` and `toLowerCase`. Each is stated against an independent
 definition of "occurs at".
 */
module Text {

  /** `t` occurs in `s` starting at index `i`. */
  ghost predicate OccursAt(s: string, t: string, i: int) {
    0 <= i && i + |t| <= |s| && s[i..i + |t|] == t
  }

  /** `i` is the first index at which `t` occurs in `s`. */
  ghost predicate FirstAt(s: string, t: string, i: int) {
    OccursAt(s, t, i) && forall j :: 0 <= j < i ==> !OccursAt(s, t, j)
  }

  /** `t` occurs somewhere in `s`. */
  ghost predicate Contains(s: string, t: string) {
    exists i :: OccursAt(s, t, i)
  }

  /** The first occurrence of `t` in `s` at or after `k`, or -1. */
  function IndexFrom(s: string, t: string, k: nat): (r: int)
    requires k <= |s|
    ensures r == -1 <==> forall j :: k <= j ==> !OccursAt(s, t, j)
    ensures r != -1 ==> k <= r && OccursAt(s, t, r)
    ensures r != -1 ==> forall j :: k <= j < r ==> !OccursAt(s, t, j)
    decreases |s| - k
  {
    if k + |t| > |s| then -1
    else if s[k..k + |t|] == t then assert OccursAt(s, t, k); k
    else IndexFrom(s, t, k + 1)
  }

  /** `s.indexOf(t)`: the first index at which `t` occurs, or -1 when it does not occur. */
  function IndexOf(s: string, t: string): (r: int)
    ensures r == -1 <==> !Contains(s, t)
    ensures r != -1 ==> FirstAt(s, t, r)
  {
    IndexFrom(s, t, 0)
  }

  /** Two first occurrences of the same string are the same index. */
  lemma FirstAtUnique(s: string, t: string, i: int, j: int)
    requires FirstAt(s, t, i) && FirstAt(s, t, j)
    ensures i == j
  {
  }

  /** `s.includes(t)`. */
  function Includes(s: string, t: string): (b: bool)
    ensures b <==> Contains(s, t)
  {
    IndexOf(s, t) != -1
  }

  /** The lower-case form of an ASCII letter; every other character is kept. */
  function LowerChar(c: char): char {
    if 'A' <= c <= 'Z' then (c as int + 32) as char else c
  }

  /** `s.toLowerCase()` on ASCII letters. */
  function ToLower(s: string): (r: string)
    ensures |r| == |s|
    // no capital letter is left, and only capital letters change
    ensures forall i :: 0 <= i < |r| ==> !('A' <= r[i] <= 'Z')
    ensures forall i :: 0 <= i < |s| && !('A' <= s[i] <= 'Z') ==> r[i] == s[i]
    ensures forall i :: 0 <= i < |s| ==> r[i] == LowerChar(s[i])
  {
    seq(|s|, i requires 0 <= i < |s| => LowerChar(s[i]))
  }

  /** Lowering a lowered string changes nothing. */
  lemma LoweringIsIdempotent(s: string)
    ensures ToLower(ToLower(s)) == ToLower(s)
  {
  }

  /** Lowering both strings keeps every occurrence: a host found in a URL
      is still found once both are lowered. */
  lemma OccursLowered(s: string, t: string, i: int)
    requires OccursAt(s, t, i)
    ensures OccursAt(ToLower(s), ToLower(t), i)
  {
    assert forall k :: 0 <= k < |t| ==> ToLower(s)[i + k] == LowerChar(s[i + k]) == LowerChar(t[k]);
  }
}
