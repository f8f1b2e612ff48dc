/** `make_training_matrices` of align.py: the two parallel lists of row
    vectors that the Procrustes step is trained on. */
module Training {
  import opened Seqs
  import opened Vocab
  import opened Lexicon

  /** The indices of the pairs of `ps` whose words are both known, in
      increasing order. */
  function SurvivorIndices(S: set<Word>, T: set<Word>, ps: seq<Pair>): seq<nat> {
    if ps == [] then []
    else
      var last := ps[|ps| - 1];
      SurvivorIndices(S, T, ps[..|ps| - 1])
      + (if last.src in S && last.tgt in T then [|ps| - 1] else [])
  }

  /** The survivor indices are valid indices of `ps`, strictly increasing. */
  lemma {:induction false} SurvivorIncreasing(S: set<Word>, T: set<Word>, ps: seq<Pair>)
    ensures forall i :: 0 <= i < |SurvivorIndices(S, T, ps)| ==> SurvivorIndices(S, T, ps)[i] < |ps|
    ensures forall i, j :: 0 <= i < j < |SurvivorIndices(S, T, ps)| ==>
              SurvivorIndices(S, T, ps)[i] < SurvivorIndices(S, T, ps)[j]
    decreases |ps|
  {
    if ps != [] {
      var init := ps[..|ps| - 1];
      SurvivorIncreasing(S, T, init);
      var r0, last := SurvivorIndices(S, T, init), ps[|ps| - 1];
      var r := SurvivorIndices(S, T, ps);
      assert r == r0 + (if last.src in S && last.tgt in T then [|ps| - 1] else []);
      forall i | 0 <= i < |r| ensures r[i] < |ps| {
        if i < |r0| { assert r[i] == r0[i]; }
      }
      forall i, j | 0 <= i < j < |r| ensures r[i] < r[j] {
        assert r[i] == r0[i];
        if j < |r0| { assert r[j] == r0[j]; }
      }
    }
  }

  /** The surviving pairs are the pairs of `ps` at the survivor indices, so
      `Known` keeps the relative order of the pairs it keeps. */
  lemma {:induction false} SurvivorOrder(S: set<Word>, T: set<Word>, ps: seq<Pair>)
    ensures |SurvivorIndices(S, T, ps)| == |Known(S, T, ps)|
    ensures forall i :: 0 <= i < |Known(S, T, ps)| ==>
              SurvivorIndices(S, T, ps)[i] < |ps| && Known(S, T, ps)[i] == ps[SurvivorIndices(S, T, ps)[i]]
    ensures forall i, j :: 0 <= i < j < |SurvivorIndices(S, T, ps)| ==>
              SurvivorIndices(S, T, ps)[i] < SurvivorIndices(S, T, ps)[j]
    decreases |ps|
  {
    SurvivorIncreasing(S, T, ps);
    if ps != [] {
      var init, last := ps[..|ps| - 1], ps[|ps| - 1];
      SurvivorOrder(S, T, init);
      assert ps == init + [last];
      KnownSnoc(S, T, init, last);
      var r0, k0 := SurvivorIndices(S, T, init), Known(S, T, init);
      var r, kept := SurvivorIndices(S, T, ps), Known(S, T, ps);
      if last.src in S && last.tgt in T {
        assert r == r0 + [|ps| - 1] && kept == k0 + [last];
        forall i | 0 <= i < |r| ensures kept[i] == ps[r[i]] {
          if i < |r0| { assert r[i] == r0[i] && kept[i] == k0[i] && init[r0[i]] == ps[r0[i]]; }
        }
      } else {
        assert r == r0 && kept == k0;
        forall i | 0 <= i < |r| ensures kept[i] == ps[r[i]] {
          assert init[r0[i]] == ps[r0[i]];
        }
      }
    }
  }

  /** Every pair with both words known is among the survivors: `Known` drops
      only pairs with an unknown word. */
  lemma {:induction false} SurvivorComplete(S: set<Word>, T: set<Word>, ps: seq<Pair>, k: nat)
    requires k < |ps| && ps[k].src in S && ps[k].tgt in T
    ensures k in SurvivorIndices(S, T, ps)
    decreases |ps|
  {
    var init, last := ps[..|ps| - 1], ps[|ps| - 1];
    var r0 := SurvivorIndices(S, T, init);
    var extra := if last.src in S && last.tgt in T then [|ps| - 1] else [];
    assert SurvivorIndices(S, T, ps) == r0 + extra;
    if k < |init| {
      assert init[k] == ps[k];
      SurvivorComplete(S, T, init, k);
    } else {
      assert extra == [k];
    }
  }

  /** Row `i` of `sourceMatrix` is the source vector and row `i` of
      `targetMatrix` the target vector of the `i`-th pair of `kept`, and
      there are no other rows. */
  predicate Parallel(source: map<Word, Vector>, target: map<Word, Vector>, kept: seq<Pair>,
                     sourceMatrix: seq<Vector>, targetMatrix: seq<Vector>) {
    && |sourceMatrix| == |targetMatrix| == |kept|
    && forall i :: 0 <= i < |kept| ==>
         kept[i].src in source && sourceMatrix[i] == source[kept[i].src]
         && kept[i].tgt in target && targetMatrix[i] == target[kept[i].tgt]
  }

  lemma ParallelSnoc(source: map<Word, Vector>, target: map<Word, Vector>, kept: seq<Pair>,
                     sourceMatrix: seq<Vector>, targetMatrix: seq<Vector>, p: Pair)
    requires Parallel(source, target, kept, sourceMatrix, targetMatrix)
    requires p.src in source && p.tgt in target
    ensures Parallel(source, target, kept + [p],
                     sourceMatrix + [source[p.src]], targetMatrix + [target[p.tgt]])
  {
  }

  /** The two training matrices, as lists of rows: for every pair whose
      source word has a vector in `source` and whose target word has one in
      `target`, in pair order, the source vector and the target vector. */
  method MakeTrainingMatrices(source: map<Word, Vector>, target: map<Word, Vector>,
                              bilingual: seq<Pair>)
    returns (sourceMatrix: seq<Vector>, targetMatrix: seq<Vector>)
    ensures Parallel(source, target, Known(source.Keys, target.Keys, bilingual),
                     sourceMatrix, targetMatrix)
  {
    sourceMatrix, targetMatrix := [], [];
    ghost var S, T := source.Keys, target.Keys;
    ghost var kept: seq<Pair> := [];
    assert bilingual[..0] == [];
    for k := 0 to |bilingual|
      invariant kept == Known(S, T, bilingual[..k])
      invariant Parallel(source, target, kept, sourceMatrix, targetMatrix)
    {
      var p := bilingual[k];
      KnownSnoc(S, T, bilingual[..k], p);
      assert bilingual[..k + 1] == bilingual[..k] + [p];
      if p.src in source && p.tgt in target {
        ParallelSnoc(source, target, kept, sourceMatrix, targetMatrix, p);
        sourceMatrix := sourceMatrix + [source[p.src]];
        targetMatrix := targetMatrix + [target[p.tgt]];
        kept := kept + [p];
      } else {
        AppendNil(kept);
      }
    }
    assert bilingual[..|bilingual|] == bilingual;
  }

  /** The pair list align.py builds loses no pair in the training matrices:
      the unsupervised pairs and the accepted dictionary pairs all have both
      words in the vocabularies, so every one of them yields a row. */
  lemma DictionaryFullyUsed(S: set<Word>, T: set<Word>, unsup: bool, overlap: seq<Word>,
                            lines: seq<string>)
    requires Enumerates(overlap, S * T)
    ensures var bilingual := (if unsup then UnsupervisedPairs(overlap) else [])
                             + Known(S, T, Entries(lines));
            Known(S, T, bilingual) == bilingual
  {
    var bilingual := (if unsup then UnsupervisedPairs(overlap) else [])
                     + Known(S, T, Entries(lines));
    UnsupervisedExact(S, T, overlap);
    KnownMembers(S, T, Entries(lines));
    forall i | 0 <= i < |bilingual| ensures bilingual[i].src in S && bilingual[i].tgt in T {
      assert bilingual[i] in bilingual;
    }
    KnownAll(S, T, bilingual);
  }
}
