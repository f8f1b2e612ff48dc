/** The out-of-vocabulary insertion loop at the end of align.py: every queued
    pair `(new word, anchor)` whose new word has no space in it puts the
    anchor's target-space vector into the source space under the new word. */
module Insertion {
  import opened Vocab
  import opened Lexicon

  /** An embedding space whose word-to-vector table is updated in place. */
  class EmbeddingSpace {
    var vectors: map<Word, Vector>

    constructor (vectors: map<Word, Vector>)
      ensures this.vectors == vectors
    {
      this.vectors := vectors;
    }

    /** `space[word]`: the vector stored for `w`. */
    function Get(w: Word): (v: Vector)
      reads this
      requires w in vectors
      ensures v == vectors[w]
    {
      vectors[w]
    }

    /** `space.insert(word, vector)`: afterwards `word` maps to `vector`, and
        every other word keeps its vector. */
    method Insert(w: Word, v: Vector)
      modifies this
      ensures vectors == old(vectors)[w := v]
      ensures w in vectors && vectors[w] == v
      ensures forall u :: u != w ==> (u in vectors <==> u in old(vectors))
      ensures forall u :: u != w && u in vectors ==> vectors[u] == old(vectors)[u]
    {
      vectors := vectors[w := v];
    }
  }

  /** Every anchor of the queue has a vector in `target`. */
  predicate AnchorsKnown(target: map<Word, Vector>, queue: seq<Pair>) {
    forall i :: 0 <= i < |queue| ==> queue[i].tgt in target
  }

  /** The source table after the insertion loop has run over `queue`. */
  function InsertAll(m: map<Word, Vector>, target: map<Word, Vector>, queue: seq<Pair>): (r: map<Word, Vector>)
    requires AnchorsKnown(target, queue)
    ensures m.Keys <= r.Keys
  {
    if queue == [] then m
    else
      var last := queue[|queue| - 1];
      var before := InsertAll(m, target, queue[..|queue| - 1]);
      if ' ' in last.src then before else before[last.src := target[last.tgt]]
  }

  /** The words the loop inserts: the new words of the queue without a space. */
  function Insertable(queue: seq<Pair>): set<Word> {
    set i | 0 <= i < |queue| && ' ' !in queue[i].src :: queue[i].src
  }

  /** The loop of align.py:127-135 over the insertion queue. */
  method InsertQueued(space: EmbeddingSpace, target: EmbeddingSpace, toInsert: seq<Pair>)
    requires space != target
    requires AnchorsKnown(target.vectors, toInsert)
    modifies space
    ensures space.vectors == InsertAll(old(space.vectors), target.vectors, toInsert)
  {
    assert toInsert[..0] == [];
    for k := 0 to |toInsert|
      invariant space.vectors == InsertAll(old(space.vectors), target.vectors, toInsert[..k])
    {
      var newSource, anchor := toInsert[k].src, toInsert[k].tgt;
      assert toInsert[..k + 1][..k] == toInsert[..k];
      if ' ' in newSource {
        continue;
      }
      space.Insert(newSource, target.Get(anchor));
    }
    assert toInsert[..|toInsert|] == toInsert;
  }

  lemma InsertAllSnoc(m: map<Word, Vector>, target: map<Word, Vector>, queue: seq<Pair>, p: Pair)
    requires AnchorsKnown(target, queue + [p])
    ensures AnchorsKnown(target, queue) && p.tgt in target
    ensures InsertAll(m, target, queue + [p])
            == if ' ' in p.src then InsertAll(m, target, queue)
               else InsertAll(m, target, queue)[p.src := target[p.tgt]]
  {
    assert (queue + [p])[..|queue|] == queue;
    assert (queue + [p])[|queue|] == p;
    assert forall i :: 0 <= i < |queue| ==> queue[i] == (queue + [p])[i];
  }

  /** The loop adds exactly the queued words that contain no space: the
      words of the new table are the old ones and those. */
  lemma {:induction false} InsertAllKeys(m: map<Word, Vector>, target: map<Word, Vector>, queue: seq<Pair>)
    requires AnchorsKnown(target, queue)
    ensures InsertAll(m, target, queue).Keys == m.Keys + Insertable(queue)
    decreases |queue|
  {
    if queue != [] {
      var init, last := queue[..|queue| - 1], queue[|queue| - 1];
      assert queue == init + [last];
      InsertAllSnoc(m, target, init, last);
      InsertAllKeys(m, target, init);
      if ' ' in last.src {
        assert Insertable(queue) == Insertable(init) by {
          forall w | w in Insertable(queue) ensures w in Insertable(init) {
            var i :| 0 <= i < |queue| && ' ' !in queue[i].src && queue[i].src == w;
            assert i < |init| && init[i] == queue[i];
          }
          forall w | w in Insertable(init) ensures w in Insertable(queue) {
            var i :| 0 <= i < |init| && ' ' !in init[i].src && init[i].src == w;
            assert queue[i] == init[i];
          }
        }
      } else {
        assert Insertable(queue) == Insertable(init) + {last.src} by {
          forall w | w in Insertable(queue) ensures w in Insertable(init) + {last.src} {
            var i :| 0 <= i < |queue| && ' ' !in queue[i].src && queue[i].src == w;
            if i < |init| { assert init[i] == queue[i]; }
          }
          forall w | w in Insertable(init) ensures w in Insertable(queue) {
            var i :| 0 <= i < |init| && ' ' !in init[i].src && init[i].src == w;
            assert queue[i] == init[i];
          }
          assert queue[|queue| - 1] == last;
        }
      }
    }
  }

  /** A word the loop does not insert keeps exactly what it had: in
      particular a queued word with a space in it leaves the source space as
      it was. */
  lemma {:induction false} InsertAllUntouched(m: map<Word, Vector>, target: map<Word, Vector>,
                                              queue: seq<Pair>, w: Word)
    requires AnchorsKnown(target, queue)
    requires forall i :: 0 <= i < |queue| ==> queue[i].src != w || ' ' in w
    ensures w in InsertAll(m, target, queue) <==> w in m
    ensures w in m ==> InsertAll(m, target, queue)[w] == m[w]
    decreases |queue|
  {
    if queue != [] {
      var init, last := queue[..|queue| - 1], queue[|queue| - 1];
      assert queue == init + [last];
      InsertAllSnoc(m, target, init, last);
      InsertAllUntouched(m, target, init, w);
    }
  }

  /** A word the loop inserts ends up with the target vector of the anchor of
      its last queue entry. */
  lemma {:induction false} InsertAllValue(m: map<Word, Vector>, target: map<Word, Vector>,
                                          queue: seq<Pair>, j: nat)
    requires AnchorsKnown(target, queue)
    requires j < |queue| && ' ' !in queue[j].src
    requires forall k :: j < k < |queue| ==> queue[k].src != queue[j].src
    ensures queue[j].src in InsertAll(m, target, queue)
    ensures InsertAll(m, target, queue)[queue[j].src] == target[queue[j].tgt]
    decreases |queue|
  {
    var init, last := queue[..|queue| - 1], queue[|queue| - 1];
    assert queue == init + [last];
    InsertAllSnoc(m, target, init, last);
    if j < |init| {
      assert init[j] == queue[j];
      assert last.src != queue[j].src;
      InsertAllValue(m, target, init, j);
    }
  }

  /** All vectors of an embedding space have the same dimension `d`. */
  predicate Dimension(m: map<Word, Vector>, d: nat) {
    forall w :: w in m ==> |m[w]| == d
  }

  /** The insertion keeps the space's dimension, provided the anchors'
      target vectors have it too. */
  lemma {:induction false} InsertAllDimension(m: map<Word, Vector>, target: map<Word, Vector>,
                                              queue: seq<Pair>, d: nat)
    requires AnchorsKnown(target, queue)
    requires Dimension(m, d) && Dimension(target, d)
    ensures Dimension(InsertAll(m, target, queue), d)
    decreases |queue|
  {
    if queue != [] {
      var init, last := queue[..|queue| - 1], queue[|queue| - 1];
      assert queue == init + [last];
      InsertAllSnoc(m, target, init, last);
      InsertAllDimension(m, target, init, d);
    }
  }

  /** The queue that align.py builds fits the loop: every anchor has a target
      vector, and no new word is in the source vocabulary, so the loop never
      replaces the vector of a word the source space was loaded with. */
  lemma QueueFits(S: set<Word>, T: set<Word>, lines: seq<string>, target: map<Word, Vector>)
    requires target.Keys == T
    ensures AnchorsKnown(target, Queued(S, T, Entries(lines)))
    ensures forall i :: 0 <= i < |Queued(S, T, Entries(lines))| ==> Queued(S, T, Entries(lines))[i].src !in S
    ensures forall w :: w in Insertable(Queued(S, T, Entries(lines))) ==> w !in S
  {
    var q := Queued(S, T, Entries(lines));
    QueuedMembers(S, T, Entries(lines));
    forall i | 0 <= i < |q| ensures q[i].tgt in target && q[i].src !in S {
      assert q[i] in q;
    }
  }
}
