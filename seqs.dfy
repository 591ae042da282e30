/**
 * Regrouping of sequence concatenation. The loops that append to a trace
 * call these at the point where a sum has to be read the other way round.
 */
module Seqs {
  /** Regrouping a concatenation of three sequences. */
  lemma Assoc3<T>(a: seq<T>, b: seq<T>, c: seq<T>)
    ensures a + b + c == a + (b + c)
  {
  }

  /** Regrouping a concatenation of four sequences. */
  lemma Assoc4<T>(a: seq<T>, b: seq<T>, c: seq<T>, d: seq<T>)
    ensures a + b + c + d == a + (b + c + d)
  {
  }
}
