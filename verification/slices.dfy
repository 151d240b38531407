/** Small facts about sequence slices that the loop proofs share. */
module Slices {
  lemma {:induction false} SliceSnoc<T>(s: seq<T>, i: nat, j: nat)
    requires i <= j < |s|
    ensures s[i..j + 1] == s[i..j] + [s[j]]
  {
  }

  lemma {:induction false} PrefixSplit<T>(s: seq<T>, n: nat, c: nat)
    requires n + c <= |s|
    ensures s[..n] + s[n..][..c] == s[..n + c]
  {
  }

  lemma {:induction false} AppendAssociates<T>(a: seq<T>, b: seq<T>, c: seq<T>)
    ensures a + (b + c) == (a + b) + c
  {
  }

  /** A non-empty sequence is its front followed by its last element. */
  lemma {:induction false} InitLast<T>(s: seq<T>)
    requires |s| > 0
    ensures s[..|s| - 1] + [s[|s| - 1]] == s
  {
  }
}
