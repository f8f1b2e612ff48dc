/** Words, vectors, translation pairs, and the vocabulary filter that both the
    dictionary reader and the training-matrix builder apply. */
module Vocab {
  import opened Seqs

  type Word = string

  /** An embedding vector; only `Normalize` looks at its components. */
  type Vector = seq<real>

  /** A translation pair (source word, target word). */
  datatype Pair = Pair(src: Word, tgt: Word)

  /** The pairs of `ps` whose source word is in `S` and whose target word is
      in `T`, in their original order. */
  function Known(S: set<Word>, T: set<Word>, ps: seq<Pair>): (r: seq<Pair>)
    ensures |r| <= |ps|
  {
    if ps == [] then []
    else
      var init, last := ps[..|ps| - 1], ps[|ps| - 1];
      assert ps == init + [last];
      Known(S, T, init) + (if last.src in S && last.tgt in T then [last] else [])
  }

  /** A pair survives exactly when it occurs in `ps` and both its words are
      known. */
  lemma {:induction false} KnownMembers(S: set<Word>, T: set<Word>, ps: seq<Pair>)
    ensures forall p :: p in Known(S, T, ps) <==> p in ps && p.src in S && p.tgt in T
    decreases |ps|
  {
    if ps != [] {
      var init, last := ps[..|ps| - 1], ps[|ps| - 1];
      KnownMembers(S, T, init);
      assert ps == init + [last];
    }
  }

  /** Filtering one more pair keeps it exactly when both its words are known. */
  lemma KnownSnoc(S: set<Word>, T: set<Word>, ps: seq<Pair>, p: Pair)
    ensures Known(S, T, ps + [p]) == Known(S, T, ps) + (if p.src in S && p.tgt in T then [p] else [])
  {
    assert (ps + [p])[..|ps|] == ps;
  }

  /** Filtering commutes with concatenation, so the survivors keep their
      relative order. */
  lemma {:induction false} KnownAppend(S: set<Word>, T: set<Word>, a: seq<Pair>, b: seq<Pair>)
    ensures Known(S, T, a + b) == Known(S, T, a) + Known(S, T, b)
    decreases |b|
  {
    if b == [] {
      assert a + b == a;
    } else {
      var init, last := b[..|b| - 1], b[|b| - 1];
      assert (a + b)[..|a + b| - 1] == a + init;
      KnownAppend(S, T, a, init);
    }
  }

  /** A pair list whose every pair is in both vocabularies passes unchanged. */
  lemma {:induction false} KnownAll(S: set<Word>, T: set<Word>, ps: seq<Pair>)
    requires forall i :: 0 <= i < |ps| ==> ps[i].src in S && ps[i].tgt in T
    ensures Known(S, T, ps) == ps
    decreases |ps|
  {
    if ps != [] {
      var init := ps[..|ps| - 1];
      assert forall i :: 0 <= i < |init| ==> init[i] == ps[i];
      KnownAll(S, T, init);
      assert init + [ps[|ps| - 1]] == ps;
    }
  }

  /** Each pair survives as often as it occurs in the input when both its
      words are known, and not at all otherwise. */
  lemma {:induction false} KnownCount(S: set<Word>, T: set<Word>, ps: seq<Pair>, p: Pair)
    ensures multiset(Known(S, T, ps))[p]
            == if p.src in S && p.tgt in T then multiset(ps)[p] else 0
    decreases |ps|
  {
    if ps != [] {
      var init, last := ps[..|ps| - 1], ps[|ps| - 1];
      assert ps == init + [last];
      KnownCount(S, T, init, p);
    }
  }
}
