/** Small facts about sequences that the loops over pages, records and subjects use. */
module Seqs {

  /** Taking one more element of a sequence appends it. */
  lemma TakeOneMore<T>(s: seq<T>, k: nat)
    requires k < |s|
    ensures s[..k + 1] == s[..k] + [s[k]]
  {
  }

  /** Dropping the last element of `s + [x]` gives back `s`. */
  lemma DropLast<T>(s: seq<T>, x: T)
    ensures (s + [x])[..|s|] == s
  {
  }
}
