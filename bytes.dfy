/** Bytes and the two Python string operations the frame reassembly relies on:
    str.startswith and str.find with a start offset. */
module Bytes {

  type byte = b: int | 0 <= b < 256

  /** s.startswith(t) */
  predicate StartsWith(s: seq<byte>, t: seq<byte>)
  {
    |t| <= |s| && s[..|t|] == t
  }

  /** t occurs in s at offset i */
  predicate OccursAt(s: seq<byte>, t: seq<byte>, i: int)
  {
    0 <= i && i + |t| <= |s| && s[i..i + |t|] == t
  }

  /** s.find(t, start): the lowest offset at or after start where t occurs, or -1. */
  function FindFrom(s: seq<byte>, t: seq<byte>, start: nat): (r: int)
    ensures r == -1 || (start <= r && OccursAt(s, t, r))
    ensures forall i :: start <= i && (r == -1 || i < r) ==> !OccursAt(s, t, i)
    decreases |s| - start
  {
    if start + |t| > |s| then -1
    else if s[start..start + |t|] == t then start
    else FindFrom(s, t, start + 1)
  }

  /** The first occurrence at or after start is the one find returns. */
  lemma FindFromIs(s: seq<byte>, t: seq<byte>, start: nat, k: int)
    requires start <= k && OccursAt(s, t, k)
    requires forall i :: start <= i < k ==> !OccursAt(s, t, i)
    ensures FindFrom(s, t, start) == k
  {
  }

  /** No occurrence at or after start means find gives -1. */
  lemma FindFromNone(s: seq<byte>, t: seq<byte>, start: nat)
    requires forall i :: start <= i ==> !OccursAt(s, t, i)
    ensures FindFrom(s, t, start) == -1
  {
  }

  /** Occurrences in a suffix are the occurrences in the whole, shifted. */
  lemma OccursAtDrop(s: seq<byte>, t: seq<byte>, m: nat, i: nat)
    requires m <= |s|
    ensures OccursAt(s[m..], t, i) <==> OccursAt(s, t, i + m)
  {
    if i + |t| <= |s| - m {
      assert s[m..][i..i + |t|] == s[i + m..i + m + |t|];
    }
  }
}
