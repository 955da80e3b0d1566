/** Metrics of a corpus (`DocumentsMetrics`): several documents' metrics
    combined into one frequency table, an inverted index from each normalised
    word to the documents that contain it, the lookups built on them, and the
    most-common-words query. Documents are identified by their position in the
    list the corpus is built from. */
module DocumentsMetrics {
  import opened Text
  import opened Seqs
  import opened Counters
  import InvertedIndex
  import DM = DocumentMetrics
  import opened Ranking

  /** Every document's own frequency table, in corpus order. */
  function Tables(docs: seq<DM.DocMetrics>): (r: seq<map<string, nat>>)
    ensures |r| == |docs|
  {
    seq(|docs|, i requires 0 <= i < |docs| => DM.WordFrequencies(docs[i]))
  }

  /** `word_frequencies`: `reduce(add, [dm.word_frequencies ...], Counter())`,
      the documents' tables added up. */
  function WordFrequencies(docs: seq<DM.DocMetrics>): (r: map<string, nat>)
    ensures Positive(r)
  {
    Sum(Tables(docs))
  }

  /** A word is a key of the aggregate table exactly when some document's
      normalised vocabulary contains it. */
  lemma WordFrequenciesKeys(docs: seq<DM.DocMetrics>)
    ensures forall k :: k in WordFrequencies(docs) <==> exists i :: 0 <= i < |docs| && k in DM.Vocabulary(docs[i], true)
  {
    var tables := Tables(docs);
    forall k
      ensures k in WordFrequencies(docs) <==> exists i :: 0 <= i < |docs| && k in DM.Vocabulary(docs[i], true)
    {
      SumKeys(tables, k);
      if exists i :: 0 <= i < |docs| && k in DM.Vocabulary(docs[i], true) {
        var i :| 0 <= i < |docs| && k in DM.Vocabulary(docs[i], true);
        assert k in tables[i];
      }
    }
  }

  /** The documents' own frequencies of `word`, in corpus order. */
  function Frequencies(docs: seq<DM.DocMetrics>, word: string): (r: seq<nat>)
    ensures |r| == |docs|
  {
    seq(|docs|, i requires 0 <= i < |docs| => DM.WordFrequency(docs[i], word))
  }

  /** `word_frequency(word)`: how often the word occurs in the whole corpus,
      ignoring case: the sum of the documents' own frequencies; 0, not an
      error, exactly when no document contains it. */
  function WordFrequency(docs: seq<DM.DocMetrics>, word: string): (r: nat)
    ensures r == Total(Frequencies(docs, word))
    ensures r == 0 <==> forall i :: 0 <= i < |docs| ==> DM.WordFrequency(docs[i], word) == 0
  {
    var col := Frequencies(docs, word);
    SumGet(Tables(docs), Lower(word), col);
    TotalZero(col);
    assert forall i :: 0 <= i < |docs| ==> col[i] == DM.WordFrequency(docs[i], word);
    Get(WordFrequencies(docs), Lower(word))
  }

  /** Corpus frequency lookups ignore case, because every document's lookup
      does (the upper-case half within the ASCII case mapping). */
  lemma WordFrequencyIgnoresCase(docs: seq<DM.DocMetrics>, word: string)
    ensures WordFrequency(docs, word) == WordFrequency(docs, Lower(word))
    ensures WordFrequency(docs, word) == WordFrequency(docs, Upper(word))
  {
    forall i | 0 <= i < |docs|
      ensures Frequencies(docs, word)[i] == Frequencies(docs, Lower(word))[i] == Frequencies(docs, Upper(word))[i]
    {
      DM.WordFrequencyIgnoresCase(docs[i], word);
    }
    assert Frequencies(docs, word) == Frequencies(docs, Lower(word));
    assert Frequencies(docs, word) == Frequencies(docs, Upper(word));
  }

  /** The keys of each document's word-to-sentence map: the keys that
      `_build_word_to_document_map` records for that document. */
  function DocumentKeys(docs: seq<DM.DocMetrics>): (r: seq<set<string>>)
    ensures |r| == |docs|
    ensures forall i :: 0 <= i < |docs| ==> r[i] == DM.WordSentencesMap(docs[i]).Keys
  {
    seq(|docs|, i requires 0 <= i < |docs| => DM.WordSentencesMap(docs[i]).Keys)
  }

  /** `word_document_map`: each normalised word of the corpus maps to the
      ascending list of exactly the indices of the documents whose
      word-to-sentence map has it as a key. */
  function WordDocumentMap(docs: seq<DM.DocMetrics>): (r: map<string, seq<nat>>)
    ensures forall k :: k in r <==> exists i :: 0 <= i < |docs| && k in DM.WordSentencesMap(docs[i])
    ensures forall k :: k in r ==> r[k] != [] && StrictlyAscending(r[k])
    ensures forall k :: k in r ==> forall j :: 0 <= j < |r[k]| ==> r[k][j] < |docs|
    ensures forall k, i: nat :: k in r ==> (i in r[k] <==> i < |docs| && k in DM.WordSentencesMap(docs[i]))
  {
    var keys := DocumentKeys(docs);
    var r := InvertedIndex.Build(keys);
    forall k, j | k in r && 0 <= j < |r[k]|
      ensures r[k][j] < |docs|
    {
      assert r[k][j] in r[k];
    }
    r
  }

  /** The document indices recorded for a normalised word, or none. */
  function DocumentIndices(docs: seq<DM.DocMetrics>, k: string): (r: seq<nat>)
    ensures forall j :: 0 <= j < |r| ==> r[j] < |docs|
    ensures r == InvertedIndex.Scan(DocumentKeys(docs), k, 0)
  {
    var m := WordDocumentMap(docs);
    InvertedIndex.BuildIsScan(DocumentKeys(docs), k);
    if k in m then m[k] else []
  }

  /** The name of every document, in corpus order. */
  function Names(docs: seq<DM.DocMetrics>): (r: seq<string>)
    ensures |r| == |docs|
    ensures forall i :: 0 <= i < |docs| ==> r[i] == docs[i].name
  {
    seq(|docs|, i requires 0 <= i < |docs| => docs[i].name)
  }

  /** For every document, whether it contains `word` (ignoring case). */
  function Containing(docs: seq<DM.DocMetrics>, word: string): (r: seq<bool>)
    ensures |r| == |docs|
  {
    seq(|docs|, i requires 0 <= i < |docs| => DM.WordFrequency(docs[i], word) > 0)
  }

  /** A document contains the word exactly when the word is a key of its
      word-to-sentence map. */
  lemma ContainingIffKey(docs: seq<DM.DocMetrics>, word: string)
    ensures forall i :: 0 <= i < |docs| ==> (Containing(docs, word)[i] <==> Lower(word) in DocumentKeys(docs)[i])
  {
    forall i | 0 <= i < |docs|
      ensures Containing(docs, word)[i] <==> Lower(word) in DocumentKeys(docs)[i]
    {
      DM.MapKeyIffFrequent(docs[i], word);
    }
  }

  /** `document_names_containing_word(word)`: the names of the documents that
      contain the word (ignoring case), in the order the documents were given;
      empty when no document contains it. */
  function DocumentNamesContainingWord(docs: seq<DM.DocMetrics>, word: string): (r: seq<string>)
    ensures r == Where(Names(docs), Containing(docs, word), 0)
    ensures r == [] <==> WordFrequency(docs, word) == 0
  {
    var k := Lower(word);
    var idx := DocumentIndices(docs, k);
    ContainingIffKey(docs, word);
    InvertedIndex.PickScan(Names(docs), DocumentKeys(docs), k, Containing(docs, word), 0);
    WhereEmpty(Names(docs), Containing(docs, word), 0);
    Pick(Names(docs), idx)
  }

  /** Every document's sentences line up with its token lists. */
  predicate AllAligned(docs: seq<DM.DocMetrics>) {
    forall i :: 0 <= i < |docs| ==> DM.Aligned(docs[i])
  }

  /** Every document's own `sentences_containing_word(word)`, in corpus order. */
  function SentenceLists(docs: seq<DM.DocMetrics>, word: string): (r: seq<seq<string>>)
    requires AllAligned(docs)
    ensures |r| == |docs|
  {
    seq(|docs|, i requires 0 <= i < |docs| => DM.SentencesContainingWord(docs[i], word))
  }

  /** A document's own answer does not depend on the case of the word, and is
      empty exactly when the word is not a key of its word-to-sentence map,
      that is, when the document does not contain the word. */
  lemma SentenceListsFacts(docs: seq<DM.DocMetrics>, word: string)
    requires AllAligned(docs)
    ensures SentenceLists(docs, Lower(word)) == SentenceLists(docs, word)
    ensures forall i :: 0 <= i < |docs| ==> (SentenceLists(docs, word)[i] == [] <==> Lower(word) !in DocumentKeys(docs)[i])
    ensures forall i :: 0 <= i < |docs| ==> (SentenceLists(docs, word)[i] == [] <==> DM.WordFrequency(docs[i], word) == 0)
  {
    LowerNormalises(word);
    forall i | 0 <= i < |docs|
      ensures SentenceLists(docs, word)[i] == [] <==> Lower(word) !in DocumentKeys(docs)[i]
    {
      DM.MapKeyIffFrequent(docs[i], word);
    }
  }

  /** `sentences_containing_word(word)`: the sentences of the whole corpus
      that contain the word (ignoring case), ordered by document and then by
      sentence. It is exactly every document's own answer, concatenated in
      document order; empty when no document contains the word. */
  function SentencesContainingWord(docs: seq<DM.DocMetrics>, word: string): (r: seq<string>)
    requires AllAligned(docs)
    ensures r == Flatten(SentenceLists(docs, word))
    ensures r == [] <==> WordFrequency(docs, word) == 0
  {
    var k := Lower(word);
    var idx := DocumentIndices(docs, k);
    var lists := SentenceLists(docs, k);
    SentenceListsFacts(docs, word);
    InvertedIndex.FlattenPickScan(lists, DocumentKeys(docs), k, 0);
    assert lists[0..] == lists;
    FlattenEmpty(lists);
    Flatten(Pick(lists, idx))
  }

  /** Every document's normalised words, in corpus order. */
  function NormalizedWords(docs: seq<DM.DocMetrics>): (r: seq<seq<string>>)
    ensures |r| == |docs|
  {
    seq(|docs|, i requires 0 <= i < |docs| => DM.WordsNormalized(docs[i]))
  }

  /** The iteration order of the aggregate table's keys: each document's
      table is the `Counter` of its normalised words, and the tables are
      added in corpus order. The order holds every key of the aggregate table
      exactly once. */
  function KeyOrder(docs: seq<DM.DocMetrics>): (r: seq<string>)
    ensures Distinct(r)
    ensures forall k :: k in r <==> k in WordFrequencies(docs)
  {
    var lists := NormalizedWords(docs);
    forall k
      ensures k in SumOrder(lists) <==> k in WordFrequencies(docs)
    {
      KeyOrderHasKey(docs, k);
    }
    SumOrder(lists)
  }

  /** The aggregate table lists its keys in the order in which they first
      occur in the corpus's normalised words, document after document. */
  lemma KeyOrderIsFirstOccurrence(docs: seq<DM.DocMetrics>)
    ensures KeyOrder(docs) == Dedup(Flatten(NormalizedWords(docs)))
    ensures forall i, j :: 0 <= i < j < |KeyOrder(docs)| ==>
      First(Flatten(NormalizedWords(docs)), KeyOrder(docs)[i]) < First(Flatten(NormalizedWords(docs)), KeyOrder(docs)[j])
  {
    SumOrderIsDedup(NormalizedWords(docs));
    DedupOrder(Flatten(NormalizedWords(docs)));
  }

  /** A word is in the key order exactly when it is a key of the aggregate
      table. */
  lemma KeyOrderHasKey(docs: seq<DM.DocMetrics>, k: string)
    ensures k in SumOrder(NormalizedWords(docs)) <==> k in WordFrequencies(docs)
  {
    var lists := NormalizedWords(docs);
    SumOrderKeys(lists, k);
    WordFrequenciesKeys(docs);
    if k in SumOrder(lists) {
      var i :| 0 <= i < |lists| && k in lists[i];
      assert k in DM.Vocabulary(docs[i], true);
    }
    if k in WordFrequencies(docs) {
      var i :| 0 <= i < |docs| && k in DM.Vocabulary(docs[i], true);
      assert k in lists[i];
    }
  }

  /** The words of the aggregate table whose length lies in `[lower, upper]`. */
  function Eligible(docs: seq<DM.DocMetrics>, lower: int, upper: int): set<string> {
    set k | k in WordFrequencies(docs) && lower <= |k| <= upper
  }

  /** The ranking's input: walking `order`, each word whose length lies
      between the two bounds (both inclusive), paired with its corpus
      frequency. An entry is present exactly for a word of `order` with a
      length in range, paired with that frequency. */
  function Candidates(docs: seq<DM.DocMetrics>, order: seq<string>, lower: int, upper: int): (r: seq<WordCount>)
    ensures forall e :: e in r <==> e.word in order && lower <= |e.word| <= upper && e.frequency == WordFrequency(docs, e.word)
    ensures Distinct(order) ==> DistinctWords(r)
  {
    if order == [] then []
    else
      var init := order[..|order| - 1];
      var w := order[|order| - 1];
      var prev := Candidates(docs, init, lower, upper);
      assert forall x :: x in order <==> x in init || x == w;
      if lower <= |w| <= upper then prev + [WordCount(w, WordFrequency(docs, w))] else prev
  }

  /** The words of the entries, in order. */
  function WordsOf(s: seq<WordCount>): (r: seq<string>)
    ensures |r| == |s|
    ensures forall i :: 0 <= i < |s| ==> r[i] == s[i].word
  {
    seq(|s|, i requires 0 <= i < |s| => s[i].word)
  }

  /** There is one candidate per eligible word. */
  lemma CandidatesCount(docs: seq<DM.DocMetrics>, lower: int, upper: int)
    ensures |Candidates(docs, KeyOrder(docs), lower, upper)| == |Eligible(docs, lower, upper)|
  {
    var c := Candidates(docs, KeyOrder(docs), lower, upper);
    var ws := WordsOf(c);
    assert Distinct(ws);
    DistinctCardinality(ws);
    forall k
      ensures k in ws <==> k in Eligible(docs, lower, upper)
    {
      CandidateWord(docs, lower, upper, c, k);
    }
    assert (set x | x in ws) == Eligible(docs, lower, upper);
  }

  /** A word is a candidate's word exactly when it is eligible. */
  lemma CandidateWord(docs: seq<DM.DocMetrics>, lower: int, upper: int, c: seq<WordCount>, k: string)
    requires c == Candidates(docs, KeyOrder(docs), lower, upper)
    ensures k in WordsOf(c) <==> k in Eligible(docs, lower, upper)
  {
    var ws := WordsOf(c);
    if k in ws {
      var i :| 0 <= i < |ws| && ws[i] == k;
      assert c[i] in c;
    }
    if k in Eligible(docs, lower, upper) {
      var e := WordCount(k, WordFrequency(docs, k));
      assert e in c;
      var i :| 0 <= i < |c| && c[i] == e;
      assert ws[i] == k;
    }
  }

  /** `most_common_words_filtered_by_length((lower, upper), n)`: the eligible
      words with their corpus frequencies, most frequent first, cut to `n`
      entries (all of them when `n` is None). Each word appears once; no
      eligible word left out is more frequent than an entry that was kept.
      Among equal frequencies the entries keep the aggregate table's key
      order. */
  function MostCommonWordsFilteredByLength(docs: seq<DM.DocMetrics>, lower: int, upper: int, n: Option<int>): (r: seq<WordCount>)
    ensures n.None? ==> |r| == |Eligible(docs, lower, upper)|
    ensures n.Some? && n.value >= 0 ==> |r| == if n.value < |Eligible(docs, lower, upper)| then n.value else |Eligible(docs, lower, upper)|
    ensures n.Some? && n.value < 0 ==> |r| == if |Eligible(docs, lower, upper)| + n.value > 0 then |Eligible(docs, lower, upper)| + n.value else 0
    ensures forall i :: 0 <= i < |r| ==> r[i].word in Eligible(docs, lower, upper) && r[i].frequency == WordFrequency(docs, r[i].word)
    ensures DistinctWords(r)
    ensures NonIncreasing(r)
    ensures forall k, i :: k in Eligible(docs, lower, upper) && 0 <= i < |r| && WordFrequency(docs, k) > r[i].frequency ==> k in WordsOf(r)
    ensures n.None? ==> forall k :: k in Eligible(docs, lower, upper) ==> k in WordsOf(r)
    ensures n.None? ==> forall f :: WithFrequency(r, f) == WithFrequency(Candidates(docs, KeyOrder(docs), lower, upper), f)
  {
    var common := Candidates(docs, KeyOrder(docs), lower, upper);
    var r := Top(common, n);
    CandidatesCount(docs, lower, upper);
    CandidatesAreEligible(docs, lower, upper);
    MostCommonFacts(docs, lower, upper, common, n, r);
    r
  }

  /** The candidates are exactly the eligible words paired with their corpus
      frequencies. */
  lemma CandidatesAreEligible(docs: seq<DM.DocMetrics>, lower: int, upper: int)
    ensures forall e :: e in Candidates(docs, KeyOrder(docs), lower, upper) <==>
                        e.word in Eligible(docs, lower, upper) && e.frequency == WordFrequency(docs, e.word)
  {
  }

  /** Every kept entry is a candidate, so an eligible word with its corpus
      frequency. */
  lemma KeptAreEligible(docs: seq<DM.DocMetrics>, lower: int, upper: int, common: seq<WordCount>, r: seq<WordCount>)
    requires forall e :: e in common <==> e.word in Eligible(docs, lower, upper) && e.frequency == WordFrequency(docs, e.word)
    requires forall i :: 0 <= i < |r| ==> r[i] in common
    ensures forall i :: 0 <= i < |r| ==> r[i].word in Eligible(docs, lower, upper) && r[i].frequency == WordFrequency(docs, r[i].word)
  {
    forall i | 0 <= i < |r|
      ensures r[i].word in Eligible(docs, lower, upper) && r[i].frequency == WordFrequency(docs, r[i].word)
    {
      assert r[i] in common;
    }
  }

  /** An eligible word whose candidate entry was kept is among the kept words. */
  lemma KeptWord(docs: seq<DM.DocMetrics>, lower: int, upper: int, common: seq<WordCount>, r: seq<WordCount>, k: string)
    requires forall e :: e in common <==> e.word in Eligible(docs, lower, upper) && e.frequency == WordFrequency(docs, e.word)
    requires k in Eligible(docs, lower, upper)
    requires WordCount(k, WordFrequency(docs, k)) in r
    ensures k in WordsOf(r)
  {
    var p :| 0 <= p < |r| && r[p] == WordCount(k, WordFrequency(docs, k));
    assert WordsOf(r)[p] == k;
  }

  /** What the query promises about words, given what the ranking promises
      about the candidate entries. */
  lemma MostCommonFacts(docs: seq<DM.DocMetrics>, lower: int, upper: int,
                        common: seq<WordCount>, n: Option<int>, r: seq<WordCount>)
    requires forall e :: e in common <==> e.word in Eligible(docs, lower, upper) && e.frequency == WordFrequency(docs, e.word)
    requires forall i :: 0 <= i < |r| ==> r[i] in common
    requires forall e, i :: e in common && 0 <= i < |r| && e.frequency > r[i].frequency ==> e in r
    requires n.None? ==> forall e :: e in common ==> e in r
    ensures forall i :: 0 <= i < |r| ==> r[i].word in Eligible(docs, lower, upper) && r[i].frequency == WordFrequency(docs, r[i].word)
    ensures forall k, i :: k in Eligible(docs, lower, upper) && 0 <= i < |r| && WordFrequency(docs, k) > r[i].frequency ==> k in WordsOf(r)
    ensures n.None? ==> forall k :: k in Eligible(docs, lower, upper) ==> k in WordsOf(r)
  {
    KeptAreEligible(docs, lower, upper, common, r);
    forall k, i | k in Eligible(docs, lower, upper) && 0 <= i < |r| && WordFrequency(docs, k) > r[i].frequency
      ensures k in WordsOf(r)
    {
      assert WordCount(k, WordFrequency(docs, k)) in common;
      KeptWord(docs, lower, upper, common, r, k);
    }
    if n.None? {
      forall k | k in Eligible(docs, lower, upper)
        ensures k in WordsOf(r)
      {
        assert WordCount(k, WordFrequency(docs, k)) in common;
        KeptWord(docs, lower, upper, common, r, k);
      }
    }
  }
}
