/** Small facts about sequence concatenation, stated once so that proofs
    about long concatenations do not have to rediscover them. */
module Seqs {

  /** Concatenation is associative. */
  lemma AppendAssoc<X>(a: seq<X>, b: seq<X>, c: seq<X>)
    ensures (a + b) + c == a + (b + c)
  {
  }

  lemma AppendNil<X>(a: seq<X>)
    ensures a + [] == a
  {
  }

  lemma NilAppend<X>(a: seq<X>)
    ensures [] + a == a
  {
  }
}
