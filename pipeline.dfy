/** The module-level script of align.py with the numerical steps taken out:
    vocabularies, pair list and insertion queue, training matrices, and the
    insertion loop, in that order. */
module Pipeline {
  import opened Vocab
  import opened Lexicon
  import opened Training
  import opened Insertion

  /** One run of align.py on a loaded source and target space. The
      vocabularies are the word sets of the two spaces; the pair list feeds
      the training matrices whole (no pair is dropped there), and with
      `insert` set the queued words are added to the source space. */
  method Align(source: EmbeddingSpace, target: EmbeddingSpace, unsup: bool, overlap: seq<Word>,
               lines: seq<string>, insert: bool)
    returns (sourceMatrix: seq<Vector>, targetMatrix: seq<Vector>)
    requires source != target
    requires Enumerates(overlap, source.vectors.Keys * target.vectors.Keys)
    modifies source
    ensures var S, T := old(source.vectors).Keys, target.vectors.Keys;
            var bilingual := (if unsup then UnsupervisedPairs(overlap) else []) + Known(S, T, Entries(lines));
            && Parallel(old(source.vectors), target.vectors, bilingual, sourceMatrix, targetMatrix)
            && AnchorsKnown(target.vectors, Queued(S, T, Entries(lines)))
            && source.vectors == if insert then InsertAll(old(source.vectors), target.vectors, Queued(S, T, Entries(lines)))
                                 else old(source.vectors)
  {
    var sourceWords, targetWords := source.vectors.Keys, target.vectors.Keys;
    var bilingual, toInsert, wordsAdded :=
      BuildDictionary(sourceWords, targetWords, unsup, overlap, lines, insert);
    sourceMatrix, targetMatrix := MakeTrainingMatrices(source.vectors, target.vectors, bilingual);
    DictionaryFullyUsed(sourceWords, targetWords, unsup, overlap, lines);
    QueueFits(sourceWords, targetWords, lines, target.vectors);
    if insert {
      InsertQueued(source, target, toInsert);
    }
  }
}
