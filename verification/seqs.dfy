/** Small facts about sequences, each proved on its own so that the proofs
    using them do not have to reason about extensionality. */
module Seqs {

  lemma SplitLast<T>(s: seq<T>)
    requires s != []
    ensures s == s[..|s| - 1] + [s[|s| - 1]]
  {
  }

  /** Dropping the last element of `a + b`, for a non-empty `b`. */
  lemma AppendDropLast<T>(a: seq<T>, b: seq<T>)
    requires b != []
    ensures (a + b)[..|a + b| - 1] == a + b[..|b| - 1]
    ensures (a + b)[|a + b| - 1] == b[|b| - 1]
  {
  }

  lemma AppendAssoc<T>(a: seq<T>, b: seq<T>, c: seq<T>)
    ensures a + (b + c) == (a + b) + c
  {
  }

  /** A prefix of a suffix is a middle slice. */
  lemma TakeOfDrop<T>(s: seq<T>, i: nat, j: nat)
    requires i <= j <= |s|
    ensures s[i..][..j - i] == s[i..j]
  {
  }

  /** A sequence is the concatenation of its slices at three cut points. */
  lemma SliceFour<T>(s: seq<T>, i: nat, j: nat, l: nat)
    requires i <= j <= l <= |s|
    ensures s == s[..i] + s[i..j] + s[j..l] + s[l..]
  {
    assert s[i..] == s[i..j] + s[j..];
    assert s[j..] == s[j..l] + s[l..];
    assert s == s[..i] + s[i..];
  }
}
