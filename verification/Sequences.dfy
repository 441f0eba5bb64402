/** Small facts about slices, stated once so that proofs need not search for them. */
module Sequences {

  lemma PrefixJoin<T>(s: seq<T>, m: nat, k: nat)
    requires m <= k <= |s|
    ensures s[..k] == s[..m] + s[m..k]
  {
  }

  lemma TakeAppend<T>(s: seq<T>, i: nat)
    requires i < |s|
    ensures s[..i + 1] == s[..i] + [s[i]]
  {
  }

  lemma TakeAll<T>(s: seq<T>)
    ensures s[..|s|] == s
  {
  }

  predicate NoDuplicates<T(==)>(s: seq<T>)
  {
    forall i, j :: 0 <= i < j < |s| ==> s[i] != s[j]
  }
}
