/** Facts about sequences that the proofs share. */
module Seqs {
  /** Concatenation is associative; Dafny needs the regrouping spelled out at some steps. */
  lemma ConcatAssoc<T>(x: seq<T>, y: seq<T>, z: seq<T>)
    ensures x + (y + z) == (x + y) + z
  {
  }
}
