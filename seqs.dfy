/** Facts about cutting and extending sequences, kept apart so that proofs about parsed lines need not redo them. */
module Seqs {
  /** Dropping the element just appended. */
  lemma SnocPrefix<T>(s: seq<T>, x: T)
    ensures (s + [x])[..|s|] == s
  {
  }

  /** Cutting a sequence after its `k`th element. */
  lemma SplitAt<T>(s: seq<T>, k: nat)
    requires k < |s|
    ensures s[..k] + [s[k]] == s[..k + 1] && s[..k + 1] + s[k + 1..] == s && s[..k + 1][..k] == s[..k]
  {
  }

  /** Extending a prefix of `s`, behind a fixed start, by the next element of `s`. */
  lemma ExtendSlice<T>(a: seq<T>, s: seq<T>, k: nat)
    requires k < |s|
    ensures (a + s[..k]) + [s[k]] == a + s[..k + 1]
  {
    SplitAt(s, k);
  }

  /** Cutting the middle part of `a + s + b` after its `k`th element. */
  lemma Regroup<T>(a: seq<T>, s: seq<T>, b: seq<T>, k: nat)
    requires k < |s|
    ensures a + s + b == (a + s[..k] + [s[k]]) + (s[k + 1..] + b)
  {
    SplitAt(s, k);
  }
}
