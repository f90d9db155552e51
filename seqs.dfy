/** Facts about building sequences element by element, stated once for every element type. */
module Seqs {
  /** A prefix one longer is the prefix with the next element appended. */
  lemma PrefixStep<T>(xs: seq<T>, i: nat)
    requires i < |xs|
    ensures xs[..i + 1] == xs[..i] + [xs[i]]
  {
  }

  /** A non-empty sequence is its prefix without the last element, then that element. */
  lemma InitLast<T>(xs: seq<T>)
    requires xs != []
    ensures xs[..|xs| - 1] + [xs[|xs| - 1]] == xs
    ensures forall i :: 0 <= i < |xs| - 1 ==> xs[..|xs| - 1][i] == xs[i]
  {
  }

  /** Short displays built by appending. */
  lemma Displays<T>(a: T, b: T, c: T)
    ensures [a] + [b] == [a, b]
    ensures [a, b] + [c] == [a, b, c]
  {
  }
}
