/** What several parts need about sequences. */
module Seqs {

  /** s without its i-th element. */
  function RemoveAt<T>(s: seq<T>, i: nat): seq<T>
    requires i < |s|
  {
    s[..i] + s[i + 1..]
  }

  /** The place in s of the k-th element that is left. */
  function Skip(k: nat, i: nat): nat {
    if k < i then k else k + 1
  }

  lemma RemoveAtSkips<T>(s: seq<T>, i: nat)
    requires i < |s|
    ensures |RemoveAt(s, i)| == |s| - 1 && forall k :: 0 <= k < |s| - 1 ==> RemoveAt(s, i)[k] == s[Skip(k, i)]
  {}

  function One(b: bool): nat {
    if b then 1 else 0
  }
}
