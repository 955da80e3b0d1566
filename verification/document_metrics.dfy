/** Metrics of a single document (`DocumentMetrics`).

    A document is given by its name, its sentences, and the token list of
    each sentence as produced by the tokenizer. Everything else is derived:
    the flattened words (as written and normalised), the vocabulary, the
    frequency table, and the inverted index from each normalised word to the
    sentences that contain it. */
module DocumentMetrics {
  import opened Text
  import opened Seqs
  import opened Counters
  import InvertedIndex

  /** One document's metrics. `sentenceWords[i]` holds the tokens of
      `sentences[i]`; tokens never cross a sentence boundary. */
  datatype DocMetrics = DocMetrics(name: string, sentences: seq<string>, sentenceWords: seq<seq<string>>)

  /** The tokenizer yields exactly one token list per sentence. */
  predicate Aligned(d: DocMetrics) {
    |d.sentenceWords| == |d.sentences|
  }

  /** Some token of `tokens` normalises to `k`. */
  predicate Mentions(tokens: seq<string>, k: string) {
    exists j :: 0 <= j < |tokens| && Lower(tokens[j]) == k
  }

  /** Every word of a list, normalised, in the same order. */
  function LowerAll(ws: seq<string>): (r: seq<string>)
    ensures |r| == |ws|
    ensures forall i :: 0 <= i < |ws| ==> r[i] == Lower(ws[i])
  {
    seq(|ws|, i requires 0 <= i < |ws| => Lower(ws[i]))
  }

  /** `words`: the tokens of all sentences, in sentence order and then in
      token order, as written. */
  function Words(d: DocMetrics): seq<string>
  {
    Flatten(d.sentenceWords)
  }

  /** A word occurs in `words` exactly when it is a token of some sentence. */
  lemma WordsContents(d: DocMetrics, w: string)
    ensures w in Words(d) <==> exists i :: 0 <= i < |d.sentenceWords| && w in d.sentenceWords[i]
  {
    FlattenMembership(d.sentenceWords, w);
  }

  /** `words_normalized`: `words` with every token lower-cased, in the same
      order. */
  function WordsNormalized(d: DocMetrics): (r: seq<string>)
    ensures |r| == |Words(d)|
    ensures forall i :: 0 <= i < |r| ==> r[i] == Lower(Words(d)[i])
  {
    LowerAll(Words(d))
  }

  /** A normalised word occurs in `words_normalized` exactly when some
      sentence has a token that normalises to it. */
  lemma WordsNormalizedContents(d: DocMetrics, k: string)
    ensures k in WordsNormalized(d) <==> exists i :: 0 <= i < |d.sentenceWords| && Mentions(d.sentenceWords[i], k)
  {
    var ws := Words(d);
    var r := WordsNormalized(d);
    if k in r {
      var p :| 0 <= p < |r| && r[p] == k;
      assert ws[p] in ws;
      WordsContents(d, ws[p]);
      var i :| 0 <= i < |d.sentenceWords| && ws[p] in d.sentenceWords[i];
      var j :| 0 <= j < |d.sentenceWords[i]| && d.sentenceWords[i][j] == ws[p];
      assert Lower(d.sentenceWords[i][j]) == k;
    }
    if exists i :: 0 <= i < |d.sentenceWords| && Mentions(d.sentenceWords[i], k) {
      var i :| 0 <= i < |d.sentenceWords| && Mentions(d.sentenceWords[i], k);
      var j :| 0 <= j < |d.sentenceWords[i]| && Lower(d.sentenceWords[i][j]) == k;
      assert d.sentenceWords[i][j] in d.sentenceWords[i];
      WordsContents(d, d.sentenceWords[i][j]);
      assert d.sentenceWords[i][j] in ws;
      var p :| 0 <= p < |ws| && ws[p] == d.sentenceWords[i][j];
      assert r[p] == k;
    }
  }

  /** Normalising each sentence first and flattening afterwards gives the same
      list as flattening first: normalisation keeps sentence and token order. */
  lemma {:induction false} NormalizeCommutesWithFlatten(sw: seq<seq<string>>)
    ensures LowerAll(Flatten(sw)) == Flatten(seq(|sw|, i requires 0 <= i < |sw| => LowerAll(sw[i])))
  {
    var lowered := seq(|sw|, i requires 0 <= i < |sw| => LowerAll(sw[i]));
    if sw != [] {
      var init := sw[..|sw| - 1];
      NormalizeCommutesWithFlatten(init);
      var loweredInit := seq(|init|, i requires 0 <= i < |init| => LowerAll(init[i]));
      assert lowered[..|lowered| - 1] == loweredInit;
      assert LowerAll(Flatten(sw)) == LowerAll(Flatten(init)) + LowerAll(sw[|sw| - 1]);
    }
  }

  /** `vocabulary(normalize)`: the distinct words of `words_normalized` or of
      `words`. A normalised word is in the normalised vocabulary exactly when
      some sentence has a token normalising to it; a word is in the raw
      vocabulary exactly when it is a token of some sentence. */
  function Vocabulary(d: DocMetrics, normalize: bool): set<string>
  {
    if normalize then set w | w in WordsNormalized(d) else set w | w in Words(d)
  }

  /** A normalised word is in the normalised vocabulary exactly when some
      sentence has a token normalising to it; a word is in the raw vocabulary
      exactly when it is a token of some sentence. */
  lemma VocabularyContents(d: DocMetrics, w: string)
    ensures w in Vocabulary(d, true) <==> exists i :: 0 <= i < |d.sentenceWords| && Mentions(d.sentenceWords[i], w)
    ensures w in Vocabulary(d, false) <==> exists i :: 0 <= i < |d.sentenceWords| && w in d.sentenceWords[i]
  {
    WordsNormalizedContents(d, w);
    WordsContents(d, w);
  }

  /** The normalised vocabulary is the raw vocabulary with every word
      normalised. */
  lemma NormalizedVocabularyIsLowered(d: DocMetrics)
    ensures Vocabulary(d, true) == set w | w in Vocabulary(d, false) :: Lower(w)
  {
    var lowered := set w | w in Vocabulary(d, false) :: Lower(w);
    forall k | k in Vocabulary(d, true)
      ensures k in lowered
    {
      VocabularyContents(d, k);
      var i :| 0 <= i < |d.sentenceWords| && Mentions(d.sentenceWords[i], k);
      var j :| 0 <= j < |d.sentenceWords[i]| && Lower(d.sentenceWords[i][j]) == k;
      assert d.sentenceWords[i][j] in d.sentenceWords[i];
      VocabularyContents(d, d.sentenceWords[i][j]);
      assert d.sentenceWords[i][j] in Vocabulary(d, false);
    }
    forall k | k in lowered
      ensures k in Vocabulary(d, true)
    {
      var w :| w in Vocabulary(d, false) && Lower(w) == k;
      VocabularyContents(d, w);
      VocabularyContents(d, k);
      var i :| 0 <= i < |d.sentenceWords| && w in d.sentenceWords[i];
      var j :| 0 <= j < |d.sentenceWords[i]| && d.sentenceWords[i][j] == w;
      assert Mentions(d.sentenceWords[i], k);
    }
  }

  /** `word_frequencies`: the `Counter` of `words_normalized`. Its keys are
      the normalised vocabulary, and each counts how often it occurs among the
      normalised words. */
  function WordFrequencies(d: DocMetrics): (r: map<string, nat>)
    ensures r.Keys == Vocabulary(d, true)
    ensures Positive(r)
    ensures forall k :: Get(r, k) == Count(WordsNormalized(d), k)
  {
    FromList(WordsNormalized(d))
  }

  /** `word_frequency(word)`: the number of tokens of the document whose
      normalised form is the normalised `word`; 0, not an error, for a word
      the document does not contain. */
  function WordFrequency(d: DocMetrics, word: string): (r: nat)
    ensures r == Count(WordsNormalized(d), Lower(word))
    ensures r == 0 <==> Lower(word) !in Vocabulary(d, true)
  {
    Get(WordFrequencies(d), Lower(word))
  }

  /** Frequency lookups ignore case: a word, its lower-cased form and its
      upper-cased form all have the same frequency. The upper-case half holds
      because case mapping is ASCII-only here (see `Text.LowerOfUpper`). */
  lemma WordFrequencyIgnoresCase(d: DocMetrics, word: string)
    ensures WordFrequency(d, word) == WordFrequency(d, Lower(word))
    ensures WordFrequency(d, word) == WordFrequency(d, Upper(word))
  {
    LowerNormalises(word);
    LowerOfUpper(word);
  }

  /** The occurrences of `k` summed sentence by sentence. */
  function SentenceCounts(sw: seq<seq<string>>, k: string): nat
  {
    if sw == [] then 0
    else SentenceCounts(sw[..|sw| - 1], k) + Count(LowerAll(sw[|sw| - 1]), k)
  }

  /** The document frequency of a word is the sum over sentences of its
      occurrences in each sentence. */
  lemma {:induction false} WordFrequencyBySentence(d: DocMetrics, word: string)
    ensures WordFrequency(d, word) == SentenceCounts(d.sentenceWords, Lower(word))
  {
    FrequencySumOverSentences(d.sentenceWords, Lower(word));
  }

  lemma {:induction false} FrequencySumOverSentences(sw: seq<seq<string>>, k: string)
    ensures Count(LowerAll(Flatten(sw)), k) == SentenceCounts(sw, k)
  {
    if sw != [] {
      var init := sw[..|sw| - 1];
      var last := sw[|sw| - 1];
      FrequencySumOverSentences(init, k);
      assert LowerAll(Flatten(sw)) == LowerAll(Flatten(init)) + LowerAll(last);
      CountAppend(LowerAll(Flatten(init)), LowerAll(last), k);
    }
  }

  /** The normalised words of each sentence, as a set: the keys recorded for
      that sentence by `_build_word_to_sentences_map`. */
  function SentenceKeys(d: DocMetrics): (r: seq<set<string>>)
    ensures |r| == |d.sentenceWords|
    ensures forall i, k :: 0 <= i < |r| ==> (k in r[i] <==> Mentions(d.sentenceWords[i], k))
  {
    seq(|d.sentenceWords|, i requires 0 <= i < |d.sentenceWords| => set t | t in d.sentenceWords[i] :: Lower(t))
  }

  /** `word_sentences_map`: the inverted index over the sentences. Its keys
      are the normalised vocabulary. */
  function WordSentencesMap(d: DocMetrics): (r: map<string, seq<nat>>)
    ensures r.Keys == Vocabulary(d, true)
  {
    var keys := SentenceKeys(d);
    var r := InvertedIndex.Build(keys);
    SentenceMapKeys(d, keys, r);
    r
  }

  lemma SentenceMapKeys(d: DocMetrics, keys: seq<set<string>>, r: map<string, seq<nat>>)
    requires keys == SentenceKeys(d) && r == InvertedIndex.Build(keys)
    ensures r.Keys == Vocabulary(d, true)
  {
    forall k
      ensures k in r <==> k in Vocabulary(d, true)
    {
      VocabularyContents(d, k);
      if k in r {
        var i :| 0 <= i < |keys| && k in keys[i];
        assert Mentions(d.sentenceWords[i], k);
      }
      if k in Vocabulary(d, true) {
        var i :| 0 <= i < |d.sentenceWords| && Mentions(d.sentenceWords[i], k);
        assert k in keys[i];
      }
    }
  }

  /** Each normalised word maps to the ascending, duplicate-free list of
      exactly the indices of the sentences that have a token normalising to
      it; every index is a valid index into the tokenised sentences, and so
      into the sentences themselves when the two lists are aligned. */
  lemma WordSentencesMapContents(d: DocMetrics)
    ensures forall k :: k in WordSentencesMap(d) ==> WordSentencesMap(d)[k] != [] && StrictlyAscending(WordSentencesMap(d)[k])
    ensures forall k :: k in WordSentencesMap(d) ==> forall j :: 0 <= j < |WordSentencesMap(d)[k]| ==> WordSentencesMap(d)[k][j] < |d.sentenceWords|
    ensures Aligned(d) ==> forall k :: k in WordSentencesMap(d) ==> forall j :: 0 <= j < |WordSentencesMap(d)[k]| ==> WordSentencesMap(d)[k][j] < |d.sentences|
    ensures forall k, i: nat :: k in WordSentencesMap(d) ==> (i in WordSentencesMap(d)[k] <==> i < |d.sentenceWords| && Mentions(d.sentenceWords[i], k))
  {
    var keys := SentenceKeys(d);
    var r := WordSentencesMap(d);
    assert r == InvertedIndex.Build(keys);
    forall k, i: nat | k in r
      ensures i in r[k] <==> i < |d.sentenceWords| && Mentions(d.sentenceWords[i], k)
    {
      if i < |keys| {
        assert k in keys[i] <==> Mentions(d.sentenceWords[i], k);
      }
    }
    forall k, j | k in r && 0 <= j < |r[k]|
      ensures r[k][j] < |d.sentenceWords|
    {
      assert r[k][j] in r[k];
    }
  }

  /** A word has an entry in the word-to-sentence map exactly when its
      frequency in the document is positive. */
  lemma MapKeyIffFrequent(d: DocMetrics, word: string)
    ensures Lower(word) in WordSentencesMap(d) <==> WordFrequency(d, word) > 0
  {
  }

  /** For every sentence, whether it has a token normalising to `k`. */
  function SentenceMask(d: DocMetrics, k: string): (r: seq<bool>)
    ensures |r| == |d.sentenceWords|
  {
    seq(|d.sentenceWords|, i requires 0 <= i < |d.sentenceWords| => Mentions(d.sentenceWords[i], k))
  }

  /** The sentence indices recorded for a normalised word, or none. */
  function SentenceIndices(d: DocMetrics, k: string): (r: seq<nat>)
    ensures forall j :: 0 <= j < |r| ==> r[j] < |d.sentenceWords|
    ensures r == InvertedIndex.Scan(SentenceKeys(d), k, 0)
  {
    var m := WordSentencesMap(d);
    WordSentencesMapContents(d);
    InvertedIndex.BuildIsScan(SentenceKeys(d), k);
    if k in m then m[k] else []
  }

  /** `sentences_containing_word(word)`: the sentences that contain the word
      (ignoring case), each once, in document order; empty for a word the
      document does not contain. */
  function SentencesContainingWord(d: DocMetrics, word: string): (r: seq<string>)
    requires Aligned(d)
    ensures r == Where(d.sentences, SentenceMask(d, Lower(word)), 0)
    ensures r == [] <==> Lower(word) !in Vocabulary(d, true)
    ensures |r| <= |d.sentences|
  {
    var k := Lower(word);
    var idx := SentenceIndices(d, k);
    SentenceMaskFacts(d, k);
    InvertedIndex.PickScan(d.sentences, SentenceKeys(d), k, SentenceMask(d, k), 0);
    WhereLength(d.sentences, SentenceMask(d, k), 0);
    Pick(d.sentences, idx)
  }

  /** The mask marks the sentences indexed under `k`, and none is marked
      exactly when `k` is not in the normalised vocabulary. */
  lemma SentenceMaskFacts(d: DocMetrics, k: string)
    requires Aligned(d)
    ensures forall i :: 0 <= i < |d.sentences| ==> (SentenceMask(d, k)[i] <==> k in SentenceKeys(d)[i])
    ensures Where(d.sentences, SentenceMask(d, k), 0) == [] <==> k !in Vocabulary(d, true)
  {
    var mask := SentenceMask(d, k);
    WhereEmpty(d.sentences, mask, 0);
    VocabularyContents(d, k);
    if exists i :: 0 <= i < |d.sentenceWords| && Mentions(d.sentenceWords[i], k) {
      var i :| 0 <= i < |d.sentenceWords| && Mentions(d.sentenceWords[i], k);
      assert mask[i];
    }
  }
}
