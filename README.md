# Embedding-space alignment (align.py): the discrete bookkeeping

align.py aligns a source word-embedding space with a target space. It builds a
bilingual dictionary of translation pairs. It turns the pairs into two
parallel training matrices and learns an orthogonal transform from them by
Procrustes analysis (SVD). It applies the transform to the source space and,
optionally, inserts out-of-vocabulary source words anchored to their
translations' target vectors.

This project models the parts of that script that are about words, lists and
tables rather than floating-point numbers. Words are strings. Vectors are
`seq<real>` values. Outside `Normalize`, their components are never
inspected.

- `PyStr` models Python's `str.strip()` and `str.split('\t')`, the two
  string operations the dictionary reader applies to each line.
- `Vocab` holds words, vectors and translation pairs. Its filter `Known`
  keeps the pairs whose source word is in the source vocabulary and whose
  target word is in the target vocabulary, in order.
- `Lexicon` is the dictionary-building block. It parses one dictionary
  line (`ParseLine`), generates the unsupervised pairs `(w, w)` for the
  vocabulary overlap, and runs the line loop `BuildDictionary`. That loop
  produces the pair list, the insertion queue and the `words_added` count.
- `Training` is `make_training_matrices`: a loop over the pairs that
  builds two parallel row lists from the two word-to-vector tables.
- `Insertion` models the source space as a class `EmbeddingSpace` whose
  table the insertion loop `InsertQueued` updates in place. The function
  `InsertAll` gives the resulting table.
- `Normalize` is the zero-norm guard of `normalized`, with the norm left
  abstract.
- `Pipeline.Align` chains these steps in the order the script runs them.
  The transform is skipped.

The vocabularies `source_words` and `target_words` are the key sets of the
two tables. `list(source_words & target_words)` has an order Python does not
fix. It is therefore a parameter `overlap`, required to list every word of
the intersection exactly once (`Enumerates`). `EnumerationExists` shows that
such a listing always exists. A run without a dictionary file behaves like a
run on an empty list of lines: both leave the pair list and the queue as
they are.

Three behaviours of the code matter for reading the model:

- The count printed after the insertion loop (align.py:135) is
  `len(to_insert)`, not the number of words actually inserted.
- `insert` is called with no existence check (align.py:133), so the model
  overwrites. `QueueFits` shows that a queued word is never in the source
  vocabulary the space was loaded with.
- No line of align.py checks for empty training matrices. With no training
  pair, or with source and target vectors of different dimensions, the run
  fails inside numpy's SVD or in FastVector's matrix product
  (align.py:49, 124-125), before the insertion loop is reached.

## Model

| member | source | states |
|---|---|---|
| `PyStr.Strip` | align.py:99 | the stripped line is never longer than the line (its shape is stated by `StripInfix`) |
| `PyStr.TrimLeftSpec` | align.py:99 | the leading part `strip` drops is all whitespace, and what remains is the rest of the line, starting with a non-whitespace character |
| `PyStr.TrimRightSpec` | align.py:99 | the trailing part `strip` drops is all whitespace, and what remains is the start of the string, ending with a non-whitespace character |
| `PyStr.StripInfix` | align.py:99 | what strip keeps is a contiguous slice of the line that neither starts nor ends with whitespace, with only whitespace before and after it |
| `PyStr.StripEmpty` | align.py:99-101 | a line strips to the empty string exactly when it is all whitespace, so `if not line` skips exactly the blank lines |
| `PyStr.FieldParts` | align.py:106 | a field is its stripped word with whitespace on either side, and a character the field lacks is in neither side |
| `PyStr.StripPadded` | align.py:99 | a stripped string padded with whitespace on both sides strips back to itself |
| `PyStr.StripStripped` | align.py:106 | a string with no surrounding whitespace is unchanged by strip |
| `PyStr.StripIdempotent` | align.py:99 | strip is idempotent |
| `PyStr.Split` | align.py:102 | split always gives at least one field |
| `PyStr.SplitFields` | align.py:102 | split gives one field more than there are separators, and no field holds the separator |
| `PyStr.SplitJoinsBack` | align.py:102 | joining the fields of split with the separator gives the line back |
| `PyStr.SplitInTwo` | align.py:102-106 | a line that splits into exactly two fields is the first field, one tab and the second field, and neither field holds a tab |
| `PyStr.SplitPair` | align.py:102 | two tab-free words joined by a tab split back into exactly those two words |
| `PyStr.SplitJoin` | align.py:102 | splitting fields that were joined with a separator they do not contain gives the fields back |
| `Vocab.Known` | align.py:26 | the filtered pair list is never longer than the input |
| `Vocab.KnownMembers` | align.py:26 | a pair survives exactly when it is in the input and its source word and target word are both known |
| `Vocab.KnownSnoc` | align.py:25-28 | one more pair is kept at the end exactly when both its words are known |
| `Vocab.KnownAppend` | align.py:25-28 | filtering commutes with concatenation, so survivors keep their relative order |
| `Vocab.KnownAll` | align.py:26 | a list whose pairs all have known words passes the filter unchanged |
| `Vocab.KnownCount` | align.py:26 | each pair survives as often as it occurs when both words are known, and never otherwise |
| `Lexicon.ParseLine` | align.py:99-106 | no contract of its own; `ParseLineCases` states its three outcomes and `ParsePadded` states which pair an entry line gives |
| `Lexicon.ParseLineCases` | align.py:99-106 | a line is blank exactly when it is all whitespace; it is malformed exactly when its stripped text does not hold exactly one tab; otherwise it gives two non-empty, stripped, tab-free words |
| `Lexicon.ParsePadded` | align.py:99-106 | two tab-free fields around one tab, with any whitespace at the line's ends and next to the tab, give the pair of the two stripped fields, provided each field holds a word |
| `Lexicon.ParseInner` | align.py:99-106 | a line `word, whitespace, tab, whitespace, word` with whitespace around it gives exactly the pair of the two words |
| `Lexicon.ParseFormatted` | align.py:99-106 | a line `src TAB tgt`, with any surrounding whitespace such as its newline, parses back to the pair `(src, tgt)` |
| `Lexicon.Pairs` | align.py:98-106 | a file gives at most one pair per line |
| `Lexicon.PairsAppend` | align.py:98 | the pairs of consecutive blocks of lines are those of the first block followed by those of the second |
| `Lexicon.Entries` | align.py:96-106 | a file gives no more pairs than it has lines; `EntriesSnoc` ties each line to `ParseLine`, and `ParsePadded` gives the pair an entry line yields |
| `Lexicon.EntriesWellFormed` | align.py:96-106 | every pair read from the file consists of two well-formed words, and there are no more pairs than lines |
| `Lexicon.EntriesAppend` | align.py:98 | reading a file in two parts gives the pairs of the first part followed by those of the second |
| `Lexicon.EntriesSnoc` | align.py:96-106 | reading one more line appends that line's pair when it has one, and nothing otherwise |
| `Lexicon.AcceptOrQueue` | align.py:108-112 | a pair with both words known is appended to the pair list and counted, and is not queued; any other pair leaves the pair list alone and is queued exactly when its target word is known |
| `Lexicon.SkippedLine` | align.py:99-105 | a blank or malformed line contributes nothing to the pair list or the queue, wherever it stands |
| `Lexicon.Queued` | align.py:111-112 | the queue is never longer than the pairs read; `QueuedMembers` and `QueuedCount` state which pairs it holds |
| `Lexicon.QueuedMembers` | align.py:108-112 | a pair is queued exactly when it is in the input, its source word is unknown and its target word is known |
| `Lexicon.QueuedAppend` | align.py:111-112 | the queue of two consecutive blocks of pairs is the queue of the first followed by that of the second |
| `Lexicon.QueuedCount` | align.py:108-112 | each pair is queued as often as it occurs when only its target word is known, and never otherwise, so no pair goes to both lists |
| `Lexicon.EnumerationExists` | align.py:91 | every vocabulary overlap has a listing with each word exactly once |
| `Lexicon.UnsupervisedPairs` | align.py:92 | one pair per listed word; `UnsupervisedCount` and `UnsupervisedExact` state which pairs |
| `Lexicon.UnsupervisedCount` | align.py:92 | the unsupervised list has one entry per listed word, and each entry pairs a word with itself |
| `Lexicon.UnsupervisedExact` | align.py:89-94 | in unsupervised mode there is exactly one pair `(w, w)` for each word in both vocabularies and no other pair |
| `Lexicon.BuildDictionary` | align.py:85-113 | the pair list is the unsupervised pairs followed by the parsed pairs with both words known, in file order; `words_added` is the number of the latter; with `insert` set, the queue holds the parsed pairs with an unknown source word and a known target word, and otherwise it stays empty |
| `Training.SurvivorIncreasing` | align.py:25-26 | the indices of the surviving pairs are valid and strictly increasing |
| `Training.SurvivorOrder` | align.py:25-28 | the i-th surviving pair is the input pair at the i-th survivor index, so surviving pairs keep their input order |
| `Training.SurvivorComplete` | align.py:26 | every pair with both words known is among the survivors |
| `Training.MakeTrainingMatrices` | align.py:16-31 | the two matrices have the same number of rows, one per surviving pair; row i of each is the source vector and the target vector of the i-th surviving pair |
| `Training.DictionaryFullyUsed` | align.py:119-120 | the pair list the script builds passes the matrix filter unchanged, so every unsupervised and supervised pair yields a row |
| `Insertion.EmbeddingSpace.Insert` | align.py:133 | after inserting, the word maps to the given vector and every other word keeps its vector |
| `Insertion.InsertQueued` | align.py:127-135 | the loop leaves the source table equal to `InsertAll` of the old table and the queue, with the target space unchanged |
| `Insertion.InsertAll` | align.py:127-133 | the loop never removes a word from the source table; `InsertAllSnoc`, `InsertAllKeys`, `InsertAllValue` and `InsertAllUntouched` state the table it produces |
| `Insertion.InsertAllSnoc` | align.py:128-133 | one more queue entry is skipped if its new word holds a space and otherwise sets that word to the anchor's target vector |
| `Insertion.InsertAllKeys` | align.py:128-133 | the words of the new table are the old words plus the queued new words that contain no space |
| `Insertion.InsertAllUntouched` | align.py:130-131 | a word that is never inserted, including any queued word with a space in it, keeps its presence and its vector |
| `Insertion.InsertAllValue` | align.py:133 | an inserted word ends up with the target-space vector of the anchor of its last queue entry |
| `Insertion.InsertAllDimension` | align.py:133 | when all vectors of both spaces have dimension d, all vectors of the new table do too |
| `Insertion.QueueFits` | align.py:111-112 | every anchor in the queue has a target vector, so the lookup at line 133 cannot fail; no queued word, with or without a space in it, is in the source vocabulary |
| `Normalize.GuardNorm` | align.py:13 | the guarded norm is never zero and equals the norm whenever the norm is nonzero |
| `Normalize.Normalized` | align.py:10-14 | normalising keeps the number of rows and the length of each row; `NormalizedRows` states the row values |
| `Normalize.NormalizedRows` | align.py:10-14 | normalising keeps the shape; a row with zero norm comes back unchanged; any other row times its norm gives the original row |
| `Normalize.ZeroRowStaysZero` | align.py:13-14 | a zero row stays a zero row instead of becoming undefined |
| `Pipeline.Align` | align.py:77-135 | the training matrices are parallel over the whole pair list; every queued anchor is known; with `insert` set the source table becomes `InsertAll` of the queue, and otherwise it is unchanged |

## Left out

- `learn_transformation` (align.py:33-49) is left out. It is numpy matrix products and an SVD in floating point, and the orthogonality of its result cannot be stated over opaque vectors.
- `apply_transform` (align.py:125) is left out. It belongs to the FastVector class, which is not part of this model. `Pipeline.Align` assumes that `apply_transform` keeps the word set, and it inserts into the untransformed table.
- `normalized` (align.py:10-14): the norm computation is not modelled. The norm is a function parameter, and only the zero guard and the division are modelled, over exact reals.
- `cached_load_vecs` (align.py:51-61) is left out because it is file I/O and pickling. It writes `filename + 'pickle'` but reads `filename + '.pickle'`, and its slow path returns nothing. The model starts from loaded tables instead.
- Argument parsing (align.py:63-70) is left out as CLI. The progress `print`s are left out as output. This includes the count printed at line 135, which is `len(to_insert)` and not the number of words inserted.
- Reading the dictionary file (align.py:98) is I/O, so the model takes its lines as a given sequence of strings. `export` (align.py:143) is also I/O and is left out.
- `Insertion.EmbeddingSpace.Insert`: does not model the random perturbation of `insert(..., vary=True)`. FastVector is not part of this model, so inserting is a plain table update with the anchor's vector.
- `Lexicon.BuildDictionary`: the order of `list(source_words & target_words)` is not fixed by Python. The model takes that list as the parameter `overlap`, constrained only to list each word of the intersection once.
- `Pipeline.Align`: assumes that the numeric step (align.py:119-125) succeeds. That needs at least one training pair and source and target vectors of the same dimension. On other runs the script stops inside numpy or FastVector before the insertion loop, but the model still states the insertion result.
- `Normalize.NormalizedRows`: says nothing about unit length, because the norm is abstract.
- Python's `str` is modelled as a sequence of code points (`char`). Whitespace is the set `str.isspace` accepts.
