/** Slicing facts about sequences, stated once so that proofs about folds can use them as plain equalities. */
module Seqs {

  /** Cutting a sequence after position `i` and after position `i + 1`. */
  lemma SliceAt<T>(s: seq<T>, i: int)
    requires 0 <= i < |s|
    ensures s[..i + 1] == s[..i] + [s[i]]
    ensures s[..i + 1][..i] == s[..i]
    ensures s[..i + 1] + s[i + 1..] == s
  {
  }

  /** The prefix and last element of a sequence with one element appended. */
  lemma Snoc<T>(s: seq<T>, x: T)
    ensures (s + [x])[..|s|] == s
    ensures (s + [x])[|s|] == x
  {
  }

  /** Appending a non-empty `ys` is appending all but its last element, then that element. */
  lemma AppendLast<T>(xs: seq<T>, ys: seq<T>)
    requires ys != []
    ensures ys == ys[..|ys| - 1] + [ys[|ys| - 1]]
    ensures xs + ys == (xs + ys[..|ys| - 1]) + [ys[|ys| - 1]]
  {
  }

  lemma AppendEmpty<T>(xs: seq<T>)
    ensures xs + [] == xs
  {
  }

  /** The whole slice of a sequence is the sequence. */
  lemma FullSlice<T>(s: seq<T>)
    ensures s[..|s|] == s
  {
  }
}
