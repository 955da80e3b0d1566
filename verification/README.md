# Document metrics in Dafny

A Dafny model of the metrics-aggregation core of `src/document_metrics.py`. It
has two layers.

- `DocumentMetrics` handles one document. From the document's sentences and
  each sentence's tokens it derives:
  - the flattened words, as written and lower-cased;
  - the vocabulary;
  - the `Counter` of normalised words;
  - the inverted index from each normalised word to the sorted indices of
    the sentences containing it;
  - the case-insensitive lookups built on these.
- `DocumentsMetrics` handles a corpus. It derives:
  - the documents' counters added up;
  - the inverted index from each word to the sorted indices of the documents
    containing it;
  - the lookups for document names and sentences containing a word;
  - the most-common-words query.

Each memoised property of the Python classes is a pure function of its input
here. A document is the datatype `DocMetrics(name, sentences, sentenceWords)`.
The tokenizer's output is taken as given. `Aligned` states that there is one
token list per sentence.

Modules:

- `Text`: ASCII lower- and upper-casing, `str.lower` and `str.upper`.
- `Seqs`:
  - `reduce(add, xss, [])` as `Flatten`;
  - occurrence counts;
  - first-occurrence de-duplication, which gives the key order of a dict;
  - strictly ascending lists;
  - filtering by a mask (`Where`) and picking by indices (`Pick`).
- `Counters`: `collections.Counter` as a map with a default of 0.
  - It covers `Counter(list)`, `+`, and `reduce(add, ..., Counter())`.
  - It also gives the key order those produce, because that order decides
    how ties come out in the most-common query.
- `InvertedIndex`: the `defaultdict(set)` accumulation followed by
  `sorted(...)`. The word→sentence and word→document maps share it.
  - `Scan` is the reference definition: visit every position and keep those
    where the key occurs.
- `DocumentMetrics` and `DocumentsMetrics`: the two classes.
- `Ranking`:
  - `list.sort(key=..., reverse=True)` as a stable insertion sort;
  - Python's `list[:n]` slicing;
  - their combination `Top`.

Two behaviours of the core are easy to miss from its callers and tests:

- The command line rejects a limit below 1 (src/cli.py:15-18), but
  `most_common_words_filtered_by_length` itself accepts any `int` or `None`.
  The model takes `n` as an `Option<int>` with Python's slicing rules, so a
  negative `n` drops entries from the end.
- The tests treat words of equal frequency as unordered
  (tests/test_documents_metrics.py:134-141). The code does fix their order:
  the sort is stable, so tied words come out in the key order of the
  aggregate `Counter`. That order is the order in which the normalised words
  first occur in the corpus, document after document. The model defines
  this order (`KeyOrder`), proves it is the first-occurrence order
  (`KeyOrderIsFirstOccurrence`), and proves the query keeps it
  (`MostCommonWordsFilteredByLength`, last postcondition).

## Model

| member | source | states |
|---|---|---|
| Text.Lower | src/document_metrics.py:214 | `word.lower()` over ASCII: the result has the word's length and maps each capital A-Z to its small letter, leaving every other character alone; the meaning of normalising is carried by `LowerNormalises` |
| Text.Upper | tests/test_documents_metrics.py:42-46 | `word.upper()` over ASCII, used to state that capitalised searches agree with lower-case ones: same length, each small a-z mapped to its capital, every other character alone; `LowerOfUpper` relates it to `Lower` |
| Text.LowerNormalises | src/document_metrics.py:164-170 | lower-casing yields a word with no capital letter; a word is unchanged by it exactly when it has none; applying it twice changes nothing |
| Text.LowerOfUpper | src/document_metrics.py:164-170 | upper-casing a word does not change its lower-cased form |
| Seqs.Flatten | src/document_metrics.py:213 | no contract: `reduce(add, xss, [])`; its meaning is carried by `FlattenAppend`, `FlattenMembership` and `FlattenEmpty` |
| Seqs.FlattenAppend | src/document_metrics.py:213 | concatenating the sentence lists distributes over splitting the outer list, so sentence order and token order are kept |
| Seqs.FlattenMembership | src/document_metrics.py:213 | a word is in the flattened list exactly when it is in one of the inner lists |
| Seqs.FlattenEmpty | src/document_metrics.py:283 | a concatenation of lists is empty exactly when every list is |
| Seqs.First | src/document_metrics.py:148 | the position of the first occurrence of an element: the element is there, and not before it |
| Seqs.Dedup | src/document_metrics.py:148 | the key order of a counter built from a list holds each element of the list exactly once and nothing else |
| Seqs.DedupOrder | src/document_metrics.py:148 | that key order lists the elements in the order of their first occurrences in the list |
| Seqs.AppendNew | src/document_metrics.py:236 | the key order of a sum of counters starts with the left operand's keys, holds every key of either operand and each once, and everything after the left operand's keys is a new key of the right operand |
| Seqs.AppendNewOrder | src/document_metrics.py:236 | the new keys of the right operand follow the left operand's keys in the order of their first occurrences in the right operand |
| Seqs.DedupAppend | src/document_metrics.py:236 | building one counter from a concatenation orders its keys as the first part's counter followed by the second part's new elements |
| Seqs.AppendNewDedup | src/document_metrics.py:236 | adding a counter built from a list contributes its new keys in the same order as the list itself would |
| Counters.Get | src/document_metrics.py:170 | no contract: `c.get(k, 0)`; its meaning is carried by `SumGet`, `DocumentMetrics.WordFrequency` and `DocumentsMetrics.WordFrequency` |
| Counters.FromList | src/document_metrics.py:148 | `Counter(xs)` has exactly the elements of `xs` as keys, with positive counts, and each key's count is its number of occurrences in `xs` |
| Counters.Add | src/document_metrics.py:236 | in a sum of two counters every key's count is the sum of its two counts, and only positive counts are stored |
| Counters.Sum | src/document_metrics.py:236 | every count of `reduce(add, cs, Counter())` is positive; its counts and keys are stated by `SumGet` and `SumKeys` |
| Counters.SumGet | src/document_metrics.py:236 | a key's count in the reduced sum equals the total of its counts in the summands |
| Counters.SumKeys | src/document_metrics.py:236 | a key is in the reduced sum exactly when it is a key of some summand, given positive summands |
| Counters.SumOrder | src/document_metrics.py:236 | the key order of the reduced sum holds each key once; `SumOrderIsDedup` says which order it is |
| Counters.SumOrderIsDedup | src/document_metrics.py:236 | the reduced sum of the counters built from some lists orders its keys by first occurrence in the lists concatenated |
| Counters.SumOrderFlatten | src/document_metrics.py:236 | the key order of the reduced sum holds the same keys as the lists the counters were built from, concatenated |
| Counters.SumOrderKeys | src/document_metrics.py:236 | the key order of the reduced sum lists exactly the elements of the lists the counters were built from |
| DocumentMetrics.Words | src/document_metrics.py:118-127 | no contract: `words` is the flattened token lists; its meaning is carried by `WordsContents` and `Seqs.FlattenAppend` |
| DocumentMetrics.WordsContents | src/document_metrics.py:118-127 | a word is in `words` exactly when it is a token of some sentence |
| DocumentMetrics.WordsNormalized | src/document_metrics.py:129-138 | `words_normalized` has one entry per word of `words`, each the lower-cased form of the word at the same position |
| DocumentMetrics.WordsNormalizedContents | src/document_metrics.py:129-138 | a word is in `words_normalized` exactly when some sentence has a token that lower-cases to it |
| DocumentMetrics.NormalizeCommutesWithFlatten | src/document_metrics.py:205-214 | lower-casing after flattening gives the same list as lower-casing each sentence and then flattening |
| DocumentMetrics.Vocabulary | src/document_metrics.py:151-162 | no contract: the set of `words_normalized` or of `words`; its meaning is carried by `VocabularyContents` and `NormalizedVocabularyIsLowered` |
| DocumentMetrics.VocabularyContents | src/document_metrics.py:151-162 | a word is in the normalised vocabulary exactly when some sentence has a token lower-casing to it; a word is in the raw vocabulary exactly when it is a token of some sentence |
| DocumentMetrics.NormalizedVocabularyIsLowered | src/document_metrics.py:151-162 | the normalised vocabulary is the raw vocabulary with each word lower-cased |
| DocumentMetrics.WordFrequencies | src/document_metrics.py:140-149 | the frequency table's keys are the normalised vocabulary, its counts are positive, and each count is the number of occurrences among the normalised words |
| DocumentMetrics.WordFrequency | src/document_metrics.py:164-170 | a word's frequency is the number of occurrences of its lower-cased form among the normalised words; it is 0 exactly when the document does not contain the word |
| DocumentMetrics.WordFrequencyIgnoresCase | src/document_metrics.py:164-170 | a word, its lower-cased form and its upper-cased form have the same frequency |
| DocumentMetrics.WordFrequencyBySentence | src/document_metrics.py:147-148 | a word's document frequency is the sum over sentences of its occurrences in each sentence |
| DocumentMetrics.WordSentencesMap | src/document_metrics.py:183-203 | the word→sentence map's keys are exactly the normalised vocabulary |
| DocumentMetrics.WordSentencesMapContents | src/document_metrics.py:183-203 | every list in the word→sentence map is non-empty and strictly ascending; its indices are valid indices into the token lists, and into the sentences when the two are aligned; an index is in a word's list exactly when that sentence has a token lower-casing to the word |
| DocumentMetrics.MapKeyIffFrequent | src/document_metrics.py:199-203 | a word is a key of the word→sentence map exactly when its frequency is positive |
| DocumentMetrics.SentenceIndices | src/document_metrics.py:180 | `word_sentences_map.get(k, [])` holds valid indices into the token lists and equals the positions a left-to-right scan of the sentences finds for `k` |
| DocumentMetrics.SentencesContainingWord | src/document_metrics.py:172-181 | the result is the sentences that have a token lower-casing to the word, each once, in document order; it is empty exactly when the word is not in the vocabulary |
| InvertedIndex.Collect | src/document_metrics.py:199-202 | after the scan, a key is present exactly when it occurs at some visited position, and its set holds exactly those positions |
| InvertedIndex.Sorted | src/document_metrics.py:203 | `sorted` of a set of positions is strictly ascending and holds exactly the set's elements |
| InvertedIndex.Build | src/document_metrics.py:199-203 | the frozen index has a key exactly when it occurs somewhere, and maps it to a non-empty, strictly ascending list of exactly its positions |
| InvertedIndex.BuildIsScan | src/document_metrics.py:199-203 | looking a key up in the index, defaulting to the empty list, gives exactly the positions a left-to-right scan finds |
| InvertedIndex.PickScan | src/document_metrics.py:180-181 | picking the items at a key's scanned positions keeps exactly the items at the positions where the key occurs, in order |
| InvertedIndex.FlattenPickScan | src/document_metrics.py:279-283 | concatenating the lists at a key's positions equals concatenating all lists, when the lists at the other positions are empty |
| DocumentsMetrics.WordFrequencies | src/document_metrics.py:228-237 | every count of the aggregate table is positive; its keys and counts are stated by `WordFrequenciesKeys` and `WordFrequency` |
| DocumentsMetrics.WordFrequenciesKeys | src/document_metrics.py:228-237 | a word is a key of the aggregate table exactly when it is in some document's normalised vocabulary |
| DocumentsMetrics.WordFrequency | src/document_metrics.py:248-254 | the corpus frequency of a word is the sum of its frequencies in the documents; it is 0 exactly when every document's frequency is 0 |
| DocumentsMetrics.WordFrequencyIgnoresCase | src/document_metrics.py:248-254 | a word, its lower-cased form and its upper-cased form have the same corpus frequency, because each document's frequencies agree |
| DocumentsMetrics.WordDocumentMap | src/document_metrics.py:301-319 | a word is a key of the word→document map exactly when it is a key of some document's word→sentence map; each list is non-empty, strictly ascending and holds valid document indices; an index is in a word's list exactly when that document's map has the word as a key |
| DocumentsMetrics.DocumentIndices | src/document_metrics.py:266 | `word_document_map.get(k, [])` holds valid document indices and equals the positions a left-to-right scan of the documents finds for `k` |
| DocumentsMetrics.ContainingIffKey | src/document_metrics.py:315-318 | a document is recorded under a word exactly when the word's frequency in that document is positive |
| DocumentsMetrics.DocumentNamesContainingWord | src/document_metrics.py:256-267 | the result is the names of the documents that contain the word, in the order the documents were given; it is empty exactly when the corpus frequency is 0 |
| DocumentsMetrics.SentenceListsFacts | src/document_metrics.py:279-282 | a document's own sentence lookup does not depend on the case of the word, and is empty exactly when the document does not contain the word |
| DocumentsMetrics.SentencesContainingWord | src/document_metrics.py:269-283 | the result is every document's own sentence lookup concatenated in document order; it is empty exactly when the corpus frequency is 0 |
| DocumentsMetrics.KeyOrder | src/document_metrics.py:296 | the iteration order of the aggregate table holds every key of the table exactly once |
| DocumentsMetrics.KeyOrderIsFirstOccurrence | src/document_metrics.py:296 | that order is the order in which the keys first occur in the corpus's normalised words, document after document |
| DocumentsMetrics.Candidates | src/document_metrics.py:297 | an entry is a candidate exactly when its word is in the key order, has a length in range, and is paired with its corpus frequency; distinct keys give distinct words |
| DocumentsMetrics.CandidatesCount | src/document_metrics.py:297 | there are as many candidates as eligible words |
| DocumentsMetrics.MostCommonWordsFilteredByLength | src/document_metrics.py:285-299 | every entry is an eligible word (a key of the aggregate table with length in `[lower, upper]`) paired with its corpus frequency; words are distinct; frequencies never increase; no eligible word more frequent than an entry is left out; the length is the number of eligible words cut by Python's slicing rules; with `n` None every eligible word is present and ties keep the aggregate table's key order |
| Ranking.SortByFrequency | src/document_metrics.py:298 | the sorted list has non-increasing frequencies and is a permutation of the input |
| Ranking.SortKeepsWordsDistinct | src/document_metrics.py:298 | sorting keeps distinct words distinct |
| Ranking.SortIsStable | src/document_metrics.py:298 | for every frequency, the entries with that frequency appear in the sorted list in their input order |
| Ranking.Truncate | src/document_metrics.py:299 | `s[:n]` is a prefix of `s`; with `n` None it is all of `s`; its length follows Python's slicing rules for non-negative and negative `n` |
| Ranking.Top | src/document_metrics.py:298-299 | sort then slice: the result is non-increasing and drawn from the entries, keeps distinct words distinct, and leaves out no entry strictly more frequent than a kept one; the length follows the slicing rules; with `n` None it keeps every entry and ties keep their input order |

## Left out

- `Document` (src/document_metrics.py:26-55) reads files and gives the name
  of a path. This is file-system I/O. A document's name and sentences are
  inputs here, and `document_name` (src/document_metrics.py:77-79) is the
  `name` field.
- `DocumentMetrics.sentences` and `DocumentMetrics.sentence_words`
  (src/document_metrics.py:81-107) call nltk's sentence segmenter and its
  regular-expression tokenizer with the `TokenPattern` grammars
  (src/document_metrics.py:10-23). These are foreign library calls. The
  sentences and their token lists are inputs, related only by `Aligned`.
  Properties of the token grammar are not modelled.
- The memoisation through `None`-checked cached fields
  (src/document_metrics.py:68-75, 225-226) is not modelled. Each derived
  value is a pure function of the input, which is the value the cache holds.
- `Text.Lower` and `Text.Upper` lower- and upper-case ASCII letters only.
  Python's full Unicode case mapping is not modelled: it is a table-driven
  foreign function. Three proved facts depend on this restriction:
  - `Text.Lower` keeps a word's length, but Python's `"İ".lower()` has two
    characters, which changes `len(word)` in the length filter
    (src/document_metrics.py:297).
  - `Text.LowerOfUpper` and the upper-case halves of both
    `WordFrequencyIgnoresCase` lemmas fail under Unicode:
    `"straße".upper()` is `"STRASSE"`, which lower-cases to `"strasse"`,
    not `"straße"`.
- `src/visualization.py` and `src/cli.py` are not part of this model. They
  are rendering and argument parsing. The command line's checks on the
  interval and the limit are not preconditions of the core, so the model
  does not require them either.
- DocumentMetrics.SentencesContainingWord and
  DocumentsMetrics.SentencesContainingWord require `Aligned` documents.
  Python would raise `IndexError` if a token list had no matching sentence.
  The tokenizer makes that impossible, so the error path is not modelled.
- Ranking.Top and DocumentsMetrics.MostCommonWordsFilteredByLength state the
  tie order only when `n` is None. With a limit, the kept entries are a
  prefix of that stably sorted list. The contract says which frequencies are
  kept, but not which of several tied words survive the cut.
