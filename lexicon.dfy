/** The module-level block of align.py that builds the bilingual dictionary
    (the pair list used for training) and the insertion queue, from the two
    vocabularies, the unsupervised overlap and the lines of the dictionary
    file. */
module Lexicon {
  import opened PyStr
  import opened Seqs
  import opened Vocab

  /** What one line of the dictionary file yields. */
  datatype Line = Blank | Malformed | Entry(pair: Pair)

  /** A word the reader can produce: non-empty, stripped, tab-free. */
  predicate WellFormedWord(w: Word) {
    w != [] && Stripped(w) && '\t' !in w
  }

  /** A field of a stripped line that starts (or ends) the line and has no tab
      strips to a well-formed word. */
  lemma StrippedField(w: string)
    requires w != [] && '\t' !in w && (!IsSpace(w[0]) || !IsSpace(w[|w| - 1]))
    ensures WellFormedWord(Strip(w))
  {
    StripEmpty(w);
    StripInfix(w);
  }

  /** One line of the dictionary file: after stripping, a blank line is
      skipped, a line that does not split on tabs into exactly two fields is
      malformed, and otherwise the two stripped fields form a pair. */
  function ParseLine(line: string): Line {
    var s := Strip(line);
    if s == [] then Blank
    else
      var words := Split(s, '\t');
      if |words| != 2 then Malformed
      else Entry(Pair(Strip(words[0]), Strip(words[1])))
  }

  /** A line is blank exactly when it is all whitespace, malformed exactly
      when its stripped text does not hold exactly one tab, and an entry
      otherwise, made of two non-empty, stripped, tab-free words. */
  lemma ParseLineCases(line: string)
    ensures ParseLine(line).Blank? <==> AllSpace(line)
    ensures ParseLine(line).Malformed? <==> !AllSpace(line) && Count(Strip(line), '\t') != 1
    ensures ParseLine(line).Entry? ==>
              WellFormedWord(ParseLine(line).pair.src) && WellFormedWord(ParseLine(line).pair.tgt)
  {
    StripEmpty(line);
    var s := Strip(line);
    if s != [] {
      StripInfix(line);
      SplitFields(s, '\t');
      var words := Split(s, '\t');
      if |words| == 2 {
        SplitInTwo(s, '\t');
        assert words[0] != [] ==> words[0][0] == s[0];
        assert words[1] != [] ==> words[1][|words[1]| - 1] == s[|s| - 1];
        StrippedField(words[0]);
        StrippedField(words[1]);
      }
    }
  }

  /** The dictionary line for a pair: source word, tab, target word. */
  function FormatLine(p: Pair): string {
    p.src + ['\t'] + p.tgt
  }

  /** The line `word, whitespace, tab, whitespace, word`, with whitespace
      around it, gives the pair of the two words. */
  lemma ParseInner(pre: string, a: string, q1: string, p2: string, b: string, post: string)
    requires AllSpace(pre) && AllSpace(post) && AllSpace(q1) && AllSpace(p2)
    requires '\t' !in q1 && '\t' !in p2
    requires WellFormedWord(a) && WellFormedWord(b)
    ensures ParseLine(pre + (a + q1) + ['\t'] + (p2 + b) + post) == Entry(Pair(a, b))
  {
    var left, right := a + q1, p2 + b;
    var m := left + ['\t'] + right;
    assert pre + left + ['\t'] + right + post == pre + m + post by {
      AppendAssoc(pre, left, ['\t']);
      AppendAssoc(pre, left + ['\t'], right);
    }
    assert Stripped(m) by {
      assert m[0] == a[0];
      assert m[|m| - 1] == b[|b| - 1];
    }
    StripPadded(pre, m, post);
    assert '\t' !in left && '\t' !in right;
    SplitPair(left, '\t', right);
    StripPadded([], a, q1);
    StripPadded(p2, b, []);
    assert [] + a + q1 == left;
    assert p2 + b + [] == right;
  }

  /** A line made of two tab-free fields around one tab, with any whitespace
      at its ends and next to the tab, gives the pair of the two stripped
      fields, provided each field holds a word. */
  lemma ParsePadded(pre: string, x: string, y: string, post: string)
    requires AllSpace(pre) && AllSpace(post)
    requires '\t' !in x && '\t' !in y
    requires WellFormedWord(Strip(x)) && WellFormedWord(Strip(y))
    ensures ParseLine(pre + x + ['\t'] + y + post) == Entry(Pair(Strip(x), Strip(y)))
  {
    var a, b := Strip(x), Strip(y);
    var p1, q1 := FieldParts(x, '\t');
    var p2, q2 := FieldParts(y, '\t');
    AllSpaceAppend(pre, p1);
    AllSpaceAppend(q2, post);
    ParseInner(pre + p1, a, q1, p2, b, q2 + post);
    RegroupLine(pre, p1, a, q1, p2, b, q2, post);
  }

  /** The regrouping `ParsePadded` needs: the outer whitespace joins the
      line's ends, the inner whitespace joins the words. */
  lemma RegroupLine(pre: string, p1: string, a: string, q1: string,
                    p2: string, b: string, q2: string, post: string)
    ensures pre + (p1 + a + q1) + ['\t'] + (p2 + b + q2) + post
            == (pre + p1) + (a + q1) + ['\t'] + (p2 + b) + (q2 + post)
  {
    var t: string := ['\t'];
    calc {
      pre + (p1 + a + q1) + t + (p2 + b + q2) + post;
      { AppendAssoc(p1, a, q1); AppendAssoc(pre, p1, a + q1); }
      (pre + p1) + (a + q1) + t + (p2 + b + q2) + post;
      { AppendAssoc((pre + p1) + (a + q1) + t, p2 + b, q2); }
      (pre + p1) + (a + q1) + t + (p2 + b) + q2 + post;
      { AppendAssoc((pre + p1) + (a + q1) + t + (p2 + b), q2, post); }
      (pre + p1) + (a + q1) + t + (p2 + b) + (q2 + post);
    }
  }

  /** Reading back a formatted pair, with any surrounding whitespace such as
      the line's newline, gives the pair again. */
  lemma ParseFormatted(pre: string, p: Pair, post: string)
    requires AllSpace(pre) && AllSpace(post)
    requires WellFormedWord(p.src) && WellFormedWord(p.tgt)
    ensures ParseLine(pre + FormatLine(p) + post) == Entry(p)
  {
    StripStripped(p.src);
    StripStripped(p.tgt);
    ParsePadded(pre, p.src, p.tgt, post);
    AppendAssoc(pre, p.src + ['\t'], p.tgt);
    assert pre + FormatLine(p) + post == pre + p.src + ['\t'] + p.tgt + post;
  }

  /** Every line of the file, parsed. */
  function Parse(lines: seq<string>): (r: seq<Line>) {
    seq(|lines|, i requires 0 <= i < |lines| => ParseLine(lines[i]))
  }

  /** The pairs of the entry lines, in file order. */
  function Pairs(ls: seq<Line>): (r: seq<Pair>)
    ensures |r| <= |ls|
  {
    if ls == [] then []
    else
      var last := ls[|ls| - 1];
      Pairs(ls[..|ls| - 1]) + (if last.Entry? then [last.pair] else [])
  }

  lemma {:induction false} PairsAppend(a: seq<Line>, b: seq<Line>)
    ensures Pairs(a + b) == Pairs(a) + Pairs(b)
    decreases |b|
  {
    if b == [] {
      assert a + b == a;
    } else {
      assert (a + b)[..|a + b| - 1] == a + b[..|b| - 1];
      PairsAppend(a, b[..|b| - 1]);
    }
  }

  /** The pairs the dictionary file yields, in file order. */
  function Entries(lines: seq<string>): (r: seq<Pair>)
    ensures |r| <= |lines|
  {
    Pairs(Parse(lines))
  }

  /** Every pair read from the file consists of two well-formed words, and
      there are no more pairs than lines. */
  lemma EntriesWellFormed(lines: seq<string>)
    ensures |Entries(lines)| <= |lines|
    ensures forall p :: p in Entries(lines) ==> WellFormedWord(p.src) && WellFormedWord(p.tgt)
  {
    forall i | 0 <= i < |lines| { ParseLineCases(lines[i]); }
    PairsWellFormed(Parse(lines));
  }

  lemma {:induction false} PairsWellFormed(ls: seq<Line>)
    requires forall i :: 0 <= i < |ls| && ls[i].Entry? ==>
               WellFormedWord(ls[i].pair.src) && WellFormedWord(ls[i].pair.tgt)
    ensures forall p :: p in Pairs(ls) ==> WellFormedWord(p.src) && WellFormedWord(p.tgt)
    decreases |ls|
  {
    if ls != [] {
      PairsWellFormed(ls[..|ls| - 1]);
    }
  }

  /** Parsing works line by line. */
  lemma ParseAppend(a: seq<string>, b: seq<string>)
    ensures Parse(a + b) == Parse(a) + Parse(b)
  {
    assert |Parse(a + b)| == |a| + |b|;
    forall i | 0 <= i < |a| + |b| ensures Parse(a + b)[i] == (Parse(a) + Parse(b))[i] {
      if i < |a| { assert (a + b)[i] == a[i]; } else { assert (a + b)[i] == b[i - |a|]; }
    }
  }

  /** The pairs of two files read one after the other are the pairs of the
      first followed by those of the second. */
  lemma EntriesAppend(a: seq<string>, b: seq<string>)
    ensures Entries(a + b) == Entries(a) + Entries(b)
  {
    ParseAppend(a, b);
    PairsAppend(Parse(a), Parse(b));
  }

  /** A blank or malformed line contributes nothing, wherever it stands. */
  lemma SkippedLine(a: seq<string>, line: string, b: seq<string>)
    requires !ParseLine(line).Entry?
    ensures Entries(a + [line] + b) == Entries(a + b)
  {
    EntriesAppend(a, [line]);
    EntriesAppend(a + [line], b);
    EntriesAppend(a, b);
    assert Pairs([ParseLine(line)]) == [] by {
      assert [ParseLine(line)][..0] == [];
    }
  }

  /** Reading line `i` appends the line's pair to the pairs read so far if
      it has one, and appends nothing otherwise. */
  lemma EntriesSnoc(lines: seq<string>, i: nat)
    requires i < |lines|
    ensures !ParseLine(lines[i]).Entry? ==> Entries(lines[..i + 1]) == Entries(lines[..i])
    ensures ParseLine(lines[i]).Entry? ==>
              Entries(lines[..i + 1]) == Entries(lines[..i]) + [ParseLine(lines[i]).pair]
  {
    assert lines[..i + 1] == lines[..i] + [lines[i]];
    EntriesAppend(lines[..i], [lines[i]]);
    assert Parse([lines[i]]) == [ParseLine(lines[i])];
    assert Pairs([ParseLine(lines[i])]) == if ParseLine(lines[i]).Entry? then [ParseLine(lines[i]).pair] else [] by {
      assert [ParseLine(lines[i])][..0] == [];
    }
    AppendNil(Entries(lines[..i]));
  }

  /** One more dictionary pair is accepted when both its words are known
      (then it is counted and not queued); otherwise it is queued when its
      target word is known (stated for the loop of `BuildDictionary`, whose
      pair list starts with `u`). */
  lemma AcceptOrQueue(S: set<Word>, T: set<Word>, u: seq<Pair>, before: seq<Pair>, p: Pair)
    ensures p.src in S && p.tgt in T ==>
              && u + Known(S, T, before) + [p] == u + Known(S, T, before + [p])
              && |Known(S, T, before + [p])| == |Known(S, T, before)| + 1
              && Queued(S, T, before + [p]) == Queued(S, T, before)
    ensures !(p.src in S && p.tgt in T) ==>
              && Known(S, T, before + [p]) == Known(S, T, before)
              && Queued(S, T, before + [p]) == Queued(S, T, before) + (if p.tgt in T then [p] else [])
  {
    KnownAppend(S, T, before, [p]);
    QueuedAppend(S, T, before, [p]);
    FilterSingle(S, T, p);
    AppendAssoc(u, Known(S, T, before), [p]);
    AppendNil(Known(S, T, before));
    AppendNil(Queued(S, T, before));
  }

  /** What a single pair contributes to the two lists. */
  lemma FilterSingle(S: set<Word>, T: set<Word>, p: Pair)
    ensures Known(S, T, [p]) == if p.src in S && p.tgt in T then [p] else []
    ensures Queued(S, T, [p]) == if !(p.src in S && p.tgt in T) && p.tgt in T then [p] else []
  {
    assert [p][..0] == [];
  }

  /** The pairs queued for insertion: those not accepted as supervised whose
      target word is in the target vocabulary (align.py tests exactly this). */
  function Queued(S: set<Word>, T: set<Word>, ps: seq<Pair>): (r: seq<Pair>)
    ensures |r| <= |ps|
  {
    if ps == [] then []
    else
      var init, last := ps[..|ps| - 1], ps[|ps| - 1];
      assert ps == init + [last];
      Queued(S, T, init)
      + (if !(last.src in S && last.tgt in T) && last.tgt in T then [last] else [])
  }

  /** A pair is queued exactly when it occurs in `ps` with an unknown source
      word and a known target word. */
  lemma {:induction false} QueuedMembers(S: set<Word>, T: set<Word>, ps: seq<Pair>)
    ensures forall p :: p in Queued(S, T, ps) <==> p in ps && p.src !in S && p.tgt in T
    decreases |ps|
  {
    if ps != [] {
      var init, last := ps[..|ps| - 1], ps[|ps| - 1];
      QueuedMembers(S, T, init);
      assert ps == init + [last];
    }
  }

  lemma {:induction false} QueuedAppend(S: set<Word>, T: set<Word>, a: seq<Pair>, b: seq<Pair>)
    ensures Queued(S, T, a + b) == Queued(S, T, a) + Queued(S, T, b)
    decreases |b|
  {
    if b == [] {
      assert a + b == a;
    } else {
      assert (a + b)[..|a + b| - 1] == a + b[..|b| - 1];
      QueuedAppend(S, T, a, b[..|b| - 1]);
    }
  }

  /** Each pair is queued as often as it occurs when its source word is unknown
      and its target word known, and never otherwise; with `KnownCount` this
      says every occurrence of a pair with a known target goes to exactly one
      of the two lists. */
  lemma {:induction false} QueuedCount(S: set<Word>, T: set<Word>, ps: seq<Pair>, p: Pair)
    ensures multiset(Queued(S, T, ps))[p]
            == if p.src !in S && p.tgt in T then multiset(ps)[p] else 0
    decreases |ps|
  {
    if ps != [] {
      var init, last := ps[..|ps| - 1], ps[|ps| - 1];
      assert ps == init + [last];
      QueuedCount(S, T, init, p);
    }
  }

  /** `xs` lists every element of `s` exactly once, in some order: what
      `list(source_words & target_words)` returns. */
  predicate Enumerates(xs: seq<Word>, s: set<Word>) {
    multiset(xs) == multiset(s)
  }

  /** Every vocabulary overlap has such a listing. */
  lemma {:induction false} EnumerationExists(s: set<Word>)
    ensures exists xs :: Enumerates(xs, s)
    decreases |s|
  {
    if s == {} {
      assert Enumerates([], s);
    } else {
      var x :| x in s;
      EnumerationExists(s - {x});
      var xs :| Enumerates(xs, s - {x});
      assert s == (s - {x}) + {x};
      assert multiset(s) == multiset(s - {x}) + multiset{x};
      assert multiset(xs + [x]) == multiset(xs) + multiset{x};
      assert Enumerates(xs + [x], s);
    }
  }

  /** The unsupervised entries: one pair `(w, w)` per listed word. */
  function UnsupervisedPairs(overlap: seq<Word>): (r: seq<Pair>)
    ensures |r| == |overlap|
  {
    if overlap == [] then []
    else UnsupervisedPairs(overlap[..|overlap| - 1])
         + [Pair(overlap[|overlap| - 1], overlap[|overlap| - 1])]
  }

  lemma {:induction false} UnsupervisedCount(overlap: seq<Word>, p: Pair)
    ensures |UnsupervisedPairs(overlap)| == |overlap|
    ensures multiset(UnsupervisedPairs(overlap))[p]
            == if p.src == p.tgt then multiset(overlap)[p.src] else 0
    decreases |overlap|
  {
    if overlap != [] {
      var init, last := overlap[..|overlap| - 1], overlap[|overlap| - 1];
      assert overlap == init + [last];
      UnsupervisedCount(init, p);
    }
  }

  /** In unsupervised mode exactly one pair `(w, w)` is added for each word `w`
      in both vocabularies, and nothing else. */
  lemma UnsupervisedExact(S: set<Word>, T: set<Word>, overlap: seq<Word>)
    requires Enumerates(overlap, S * T)
    ensures |UnsupervisedPairs(overlap)| == |S * T|
    ensures forall p :: p in UnsupervisedPairs(overlap) <==> p.src == p.tgt && p.src in S && p.src in T
    ensures forall w :: w in S && w in T ==> multiset(UnsupervisedPairs(overlap))[Pair(w, w)] == 1
  {
    var r := UnsupervisedPairs(overlap);
    UnsupervisedCount(overlap, Pair([], []));
    assert |overlap| == |multiset(overlap)| == |multiset(S * T)| == |S * T|;
    forall p ensures p in r <==> p.src == p.tgt && p.src in S && p.src in T {
      UnsupervisedCount(overlap, p);
    }
    forall w | w in S && w in T ensures multiset(r)[Pair(w, w)] == 1 {
      UnsupervisedCount(overlap, Pair(w, w));
    }
  }

  /** The pair list and the insertion queue, as align.py builds them: the
      unsupervised pairs first (when `unsup` is set), then, line by line, every
      dictionary pair with both words in their vocabularies; `wordsAdded`
      counts the latter. With `insert` set, the pairs not accepted whose target
      word is known are queued instead. A run without a dictionary file is a
      run with no lines. */
  method BuildDictionary(sourceWords: set<Word>, targetWords: set<Word>, unsup: bool,
                         overlap: seq<Word>, lines: seq<string>, insert: bool)
    returns (bilingual: seq<Pair>, toInsert: seq<Pair>, wordsAdded: nat)
    requires Enumerates(overlap, sourceWords * targetWords)
    ensures bilingual == (if unsup then UnsupervisedPairs(overlap) else [])
                         + Known(sourceWords, targetWords, Entries(lines))
    ensures toInsert == if insert then Queued(sourceWords, targetWords, Entries(lines)) else []
    ensures wordsAdded == |Known(sourceWords, targetWords, Entries(lines))|
  {
    bilingual := [];
    toInsert := [];
    if unsup {
      bilingual := bilingual + UnsupervisedPairs(overlap);
      NilAppend(UnsupervisedPairs(overlap));
    }
    ghost var unsupervised := bilingual;
    ghost var ents: seq<Pair> := [];
    wordsAdded := 0;
    assert lines[..0] == [];
    for i := 0 to |lines|
      invariant ents == Entries(lines[..i])
      invariant bilingual == unsupervised + Known(sourceWords, targetWords, ents)
      invariant toInsert == if insert then Queued(sourceWords, targetWords, ents) else []
      invariant wordsAdded == |Known(sourceWords, targetWords, ents)|
    {
      EntriesSnoc(lines, i);
      var entry := ParseLine(lines[i]);
      if !entry.Entry? {
        ents := Entries(lines[..i + 1]);
        continue;
      }
      var srcWord, targetWord := entry.pair.src, entry.pair.tgt;
      AcceptOrQueue(sourceWords, targetWords, unsupervised, ents, entry.pair);
      ents := ents + [entry.pair];
      if srcWord in sourceWords && targetWord in targetWords {
        bilingual := bilingual + [Pair(srcWord, targetWord)];
        wordsAdded := wordsAdded + 1;
      } else if targetWord in targetWords && insert {
        toInsert := toInsert + [Pair(srcWord, targetWord)];
      }
    }
    assert lines[..|lines|] == lines;
  }
}
