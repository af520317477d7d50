/** Facts about lists shared by the models. */
module Sequences {
  /** Cutting out a later element is cutting it out of the tail. */
  lemma CutTail<T>(s: seq<T>, k: nat)
    requires 0 < k < |s|
    ensures s[..k] + s[k + 1..] == [s[0]] + (s[1..][..k - 1] + s[1..][k..])
  {
  }
}
