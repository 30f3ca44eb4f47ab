# A verified model of `SimpleTfidfVectorizer`

This project models the TF-IDF vectorizer of WordMatchSim (`WordMatchSim/tfidf.py`,
class `SimpleTfidfVectorizer`) in Dafny and proves what it computes.

- **Tokenizing** (`_tokenize`). With analyzer `'char'`, the tokens are the character
  n-grams for every width in the inclusive `ngram_range`, widths in increasing order,
  each width left to right. Slicing follows Python's `text[i:i + n]` exactly, so
  widths of zero or below behave as they do in Python. Every other analyzer uses
  `str.split()` without arguments, over Python's `str.isspace` characters.
  An empty document has no tokens in word mode, and none in `'char'` mode when
  every width in range is at least 1; there, a width of 0 or below yields `''`
  tokens. On longer text a negative width gives Python's wrapped slices, such as
  `"abc"[0:-1] == "ab"`.
- **`fit`**. For each token it counts the documents whose token *set* contains it.
  The vocabulary is `sorted(df.keys())`, numbered densely, and each token gets the
  smoothed weight `log((1 + D) / (1 + df)) + 1`.
- **`transform`**. It keeps the in-vocabulary tokens of a document and counts them.
  Each count is divided by the largest count (1 when there are none) and multiplied
  by the token's weight. The result goes into a zero vector, one slot per vocabulary
  entry.
- **`fit_transform`**. It runs `fit`, then `transform`, on the same corpus.

The vectorizer state is an immutable `Vectorizer` record: analyzer, n-gram range,
`vocabulary_`, `feature_names_` and `idf_`. `Fit` returns a new state instead of
mutating one. `Valid` is the invariant that both constructing and fitting establish:

- the feature names are strictly sorted;
- the vocabulary maps each name to its position;
- `idf_` has the vocabulary's keys.

`math.log` is a parameter `ln: real -> real`. Lemmas that depend on it require
`IsLogLike(ln)`: `ln` is non-negative from 1 on, and monotone on the positive reals.
Weights are exact reals.

Files, one module each:

| file | module | contents |
|---|---|---|
| `seqs.dfy` | `Seqs` | `Elems`, `Distinct`, `Dedup` (dict key order), cardinality facts |
| `lexorder.dfy` | `LexOrder` | Python `str` ordering, `sorted` of a set |
| `tokenizer.dfy` | `Tokenizer` | Python slices, char n-grams, `str.split()` |
| `tfidf.dfy` | `Tfidf` | the state, `_tokenize`, `fit` |
| `transform.dfy` | `TfidfTransform` | `transform`, `fit_transform`, vector properties |
| `scenarios.dfy` | `Scenarios` | two worked corpora |

## Model

| member | source | states |
|---|---|---|
| Tfidf.Init | WordMatchSim/tfidf.py:13-18 | A new vectorizer keeps its analyzer and n-gram range (by default word mode and (1, 1)), has empty `vocabulary_`, `feature_names_` and `idf_`, and is already in the valid state |
| Tokenizer.Slice | WordMatchSim/tfidf.py:34 | `text[a:b]` with in-range bounds is the plain subsequence (out-of-range and negative bounds are clamped and wrapped as in Python) |
| Tokenizer.CharNgrams | WordMatchSim/tfidf.py:34-35 | For width n there are exactly max(0, len − n + 1) n-grams, so none when n exceeds the text; for n ≥ 0 the i-th one has length n and is `text[i:i+n]` |
| Tokenizer.CharNgramsAreWindows | WordMatchSim/tfidf.py:34-35 | The n-grams of one width equal an independent definition: the sliding window moved one character at a time, left to right |
| Tokenizer.CharTokens | WordMatchSim/tfidf.py:30-36 | The char-mode token count is the sum of the per-width counts over the range |
| Tokenizer.CharTokensBlocks | WordMatchSim/tfidf.py:30-36 | The token list is the per-width n-gram lists concatenated in increasing width; width n's block sits at the sum of the earlier counts |
| Tokenizer.CharTokensShape | WordMatchSim/tfidf.py:30-36 | For n_min ≥ 0, every token is a piece of the text whose width lies in the range, and every such piece is a token |
| Tokenizer.SplitWords | WordMatchSim/tfidf.py:37-38 | Every word of `split()` is non-empty and contains no whitespace |
| Tokenizer.SplitEmptyIffBlank | WordMatchSim/tfidf.py:37-38 | `split()` yields no words exactly when the text is empty or all whitespace |
| Tokenizer.SplitJoin | WordMatchSim/tfidf.py:37-38 | Words joined by whitespace gaps (non-empty between words) split back into exactly those words, in order, duplicates kept |
| Tokenizer.GapsJoin | WordMatchSim/tfidf.py:37-38 | A text is exactly its whitespace gaps interleaved with its `split()` words, so splitting loses only whitespace |
| Tokenizer.SplitCharacterised | WordMatchSim/tfidf.py:37-38 | `split(s) == words` if and only if `s` is `words` interleaved with whitespace gaps that are non-empty between words |
| Tfidf.TokenShape | WordMatchSim/tfidf.py:30-38 | Analyzer dispatch: a non-`'char'` analyzer gives whitespace-free non-empty words; `'char'` with n_min ≥ 1 gives pieces with widths in range; an empty text gives no tokens if and only if no `'char'` width in range is 0 or below |
| Tfidf.DocFreqs | WordMatchSim/tfidf.py:47-53 | Every document frequency lies between 1 and the number of documents |
| Tfidf.DocFreqsCountDocuments | WordMatchSim/tfidf.py:47-53 | A token is in `df` iff some document's token set contains it, and its entry is the number of such documents |
| Tfidf.DocsWithBound | WordMatchSim/tfidf.py:50-53 | A document counts once however often the token recurs, so df ≤ D, and df > 0 iff some document has the token |
| Tfidf.DocFreqsOfCorpus | WordMatchSim/tfidf.py:47-53 | `df` in terms of the raw documents: keys are exactly the corpus tokens, each entry counts the documents whose tokens include it, and each is at most D |
| Tfidf.DocCountBound | WordMatchSim/tfidf.py:48-53 | A token's document count never exceeds the number of documents |
| LexOrder.LessIsStrictTotalOrder | WordMatchSim/tfidf.py:56-57 | Python's string `<` is irreflexive, total on distinct strings and transitive |
| LexOrder.SortedOf | WordMatchSim/tfidf.py:56-57 | `sorted(keys)` is strictly increasing, has exactly the keys as elements, and has one entry per key |
| LexOrder.SortedUnique | WordMatchSim/tfidf.py:56-57 | Two strictly sorted sequences with the same elements are equal, so the sorted order is unique |
| Tfidf.Positions | WordMatchSim/tfidf.py:55-56 | `{term: idx for idx, term in enumerate(names)}` has exactly the names as keys and maps the i-th name to i |
| Tfidf.Learn | WordMatchSim/tfidf.py:55-60 | From a df table, the state is valid, its vocabulary has exactly the df keys, and each weight is `log((1+D)/(1+df)) + 1` |
| Tfidf.Fit | WordMatchSim/tfidf.py:40-60 | After `fit`: valid state, configuration unchanged, vocabulary exactly the tokens that occur in the corpus, each weight `log((1+D)/(1+df(t))) + 1` with df(t) the number of documents containing t |
| Tfidf.VocabularyBijection | WordMatchSim/tfidf.py:55-57 | In a valid state `vocabulary_` is a bijection onto `0 .. N-1` with `feature_names_[vocabulary_[t]] == t` |
| Tfidf.FitFeatureNamesUnique | WordMatchSim/tfidf.py:55-57 | `feature_names_` after `fit` is the one strictly sorted sequence of the corpus tokens |
| Tfidf.FitEmptyCorpus | WordMatchSim/tfidf.py:47-60 | Fitting an empty corpus leaves vocabulary, feature names and weights empty |
| Tfidf.IdfAtLeastOne | WordMatchSim/tfidf.py:59-60 | With df ≤ D, the smoothed weight is at least 1 |
| Tfidf.IdfAntitone | WordMatchSim/tfidf.py:59-60 | A smaller df never gives a smaller weight |
| Tfidf.FitIdfAtLeastOne | WordMatchSim/tfidf.py:59-60 | Every weight `fit` learns is at least 1, including for a token present in every document |
| Tfidf.FitIdfAntitone | WordMatchSim/tfidf.py:59-60 | After `fit`, a token in no more documents than another weighs at least as much, and equal document counts give equal weights |
| TfidfTransform.InVocabulary | WordMatchSim/tfidf.py:75-76 | The filter `if token in self.vocabulary_` keeps exactly the tokens that are in the vocabulary |
| TfidfTransform.TermFreqs | WordMatchSim/tfidf.py:75-76 | The `tf` items are distinct in-vocabulary tokens of the document, each with its number of occurrences (at least 1), and every in-vocabulary token has an item |
| TfidfTransform.MaxTf | WordMatchSim/tfidf.py:78 | `max(tf.values()) if tf else 1` is 1 for no items; otherwise it bounds every count and equals one of them |
| TfidfTransform.MaxTfOf | WordMatchSim/tfidf.py:75-78 | `max_tf` is at least 1, at least every in-vocabulary count, equal to one of them when there is one, and 1 when there is none |
| TfidfTransform.Fill | WordMatchSim/tfidf.py:81-83 | The item loop writes each item's slot with `(count / max_tf) * idf` and leaves all other slots unchanged |
| TfidfTransform.VectorOf | WordMatchSim/tfidf.py:74-85 | The vector has one slot per vocabulary entry, and slot k equals an independent definition: the count of the k-th feature over `max_tf`, times its weight, or 0 if that feature is absent |
| TfidfTransform.Vectorize | WordMatchSim/tfidf.py:73-85 | One document's vector in terms of its tokens: the vocabulary's length and the slot definition above |
| TfidfTransform.Transform | WordMatchSim/tfidf.py:72-87 | `transform` returns one vector per document, in input order |
| TfidfTransform.FitTransform | WordMatchSim/tfidf.py:89-100 | `fit_transform` is `transform` on the state `fit` produces: a valid state that covers every corpus token, one vector per document, each the vector of that document |
| TfidfTransform.WeightBounds | WordMatchSim/tfidf.py:83 | For 1 ≤ count ≤ max_tf and weight ≥ 1, the ratio is in (0, 1] and the slot is in (0, idf], equal to idf exactly when count = max_tf |
| TfidfTransform.WeightAtMax | WordMatchSim/tfidf.py:83 | A most frequent token's ratio `count / max_tf` is exactly 1, so its slot is its weight for any weight |
| TfidfTransform.SlotBounds | WordMatchSim/tfidf.py:75-83 | With weights ≥ 1, a slot is non-zero iff its token occurs, always lies in [0, idf], and equals idf exactly for a most frequent in-vocabulary token |
| TfidfTransform.MostFrequentSlotIsIdf | WordMatchSim/tfidf.py:78-83 | The slot of a most frequent in-vocabulary token is exactly that token's weight, whatever the weight |
| TfidfTransform.UnknownTokensGiveZeroVector | WordMatchSim/tfidf.py:75-80 | A document with no in-vocabulary tokens, for example an empty one, uses `max_tf = 1` and gets the all-zero vector |
| TfidfTransform.HasTopSlot | WordMatchSim/tfidf.py:78-83 | A document with some in-vocabulary token has a slot whose token occurs and whose value is exactly that token's weight |
| TfidfTransform.CorpusTokensKnown | WordMatchSim/tfidf.py:47-57 | Every token of a corpus document is in the vocabulary fitted on that corpus |
| TfidfTransform.FitTransformSlots | WordMatchSim/tfidf.py:89-100 | In `fit_transform`'s output, a slot is non-zero iff its token occurs in the document, and every slot lies in [0, idf] |
| TfidfTransform.FitTransformHasTopSlot | WordMatchSim/tfidf.py:89-100 | In `fit_transform`'s output, every document with a token has a slot equal to that slot's weight, for any `ln` |
| Scenarios.CharBigrams | WordMatchSim/tfidf.py:30-36 | With `'char'` and range (2, 2), `"abc"` gives `["ab", "bc"]` and `"a"` gives none |
| Scenarios.ThreeWords | WordMatchSim/tfidf.py:37-38 | Three whitespace-free words separated by single spaces tokenize to those three words in word mode |
| Scenarios.WordCorpus | WordMatchSim/tfidf.py:40-60 | Documents tokenized as `the cat sat` and `the dog sat` give feature names `cat, dog, sat, the` at positions 0–3; `sat` and `the` weigh the same, and `cat` and `dog` weigh the same and at least as much |

## Left out

- `WordMatchSim/distance_metrics.py` (cosine similarity) is not part of this model. It is NumPy floating-point arithmetic: a matrix product, norms and a `1e-10` floor.
- `WordMatchSim/embeddings.py` is not part of this model. It is glue to a LangChain base class that is not available here; it forwards to `transform` and converts to `float`.
- The value of `math.log`: it is the parameter `ln`. Only non-negativity from 1 on and monotonicity (`IsLogLike`) are assumed, and only by the lemmas that need them.
- Floating-point rounding of `count / max_tf` and of the weights: the model uses exact reals.
- Mutation: `fit` assigns the object's fields, and the model returns a new `Vectorizer` instead. `transform` changes no state in the source; in the model it returns only vectors, so it cannot.
- `TfidfTransform.Transform` and the other vector functions require `Valid(v)`. This is not a caller obligation the source states. It is the invariant every reachable state has, since both `Init` and `Fit` establish it. A state whose `vocabulary_` or `idf_` had been overwritten by hand could raise `KeyError` or `IndexError` in the source; that case is not modelled.
- Iteration order of the `tf` dict: the model fixes first-occurrence order. The result does not depend on it, because every item writes a different slot.
- Inputs of other types: `raw_documents` is a sequence of strings, `ngram_range` a pair of integers and `analyzer` a string. A generator has no `len`, so `fit` raises `TypeError` at `len(raw_documents)` (tfidf.py line 48) before reading any document; that error path is not modelled.
- Strings: a Python `str` is modelled as a sequence of Dafny `char`s, which are Unicode scalar values, so lone surrogates (U+D800–U+DFFF, as `surrogateescape` decoding produces) cannot occur in the model. No property here depends on it.
- Concurrency: calling `fit` and `transform` from several threads on one object is not modelled.
- Tfidf.FitIdfAntitone: proves that a lower document frequency gives a weight at least as large, not strictly larger, because `ln` is only assumed monotone.
- Scenarios.WordCorpus: is stated for any two documents whose tokens are `the cat sat` and `the dog sat`, not for the literal strings. `Scenarios.ThreeWords` shows that `"the cat sat"` tokenizes that way. Like `FitIdfAntitone`, it gives `cat` a weight at least that of `sat`, not strictly greater.
