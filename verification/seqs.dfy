/** Facts about sequences in general, kept apart from the byte and text definitions. */
module Seqs {

  /** A sequence is its prefix before `k`, its element at `k`, and the rest. */
  lemma SplitAt<T>(a: seq<T>, k: nat)
    requires k < |a|
    ensures a == a[..k] + ([a[k]] + a[k + 1..])
  {
    assert a[k..] == [a[k]] + a[k + 1..];
    assert a == a[..k] + a[k..];
  }

  /** Past the end of `p`, the concatenation `p + q` shows `q`. */
  lemma ConcatAt<T>(p: seq<T>, q: seq<T>, i: nat)
    requires i < |q|
    ensures (p + q)[..|p| + i] == p + q[..i]
    ensures (p + q)[|p| + i] == q[i]
  {
  }
}
