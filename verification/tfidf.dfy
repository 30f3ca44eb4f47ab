/** The vectorizer's configuration and learned state, tokenization by
    analyzer mode, and `fit`: document frequencies, the sorted vocabulary
    and the smoothed inverse document frequencies. */
module Tfidf {
  import opened Seqs
  import opened LexOrder
  import Tokenizer

  /** The fields of a vectorizer: analyzer mode and n-gram range as given
      to the constructor, and the state `fit` replaces. */
  datatype Vectorizer = Vectorizer(
    analyzer: string,
    nMin: int,
    nMax: int,
    vocabulary: map<string, nat>,
    featureNames: seq<string>,
    idf: map<string, real>)

  /** The state every vectorizer is in: the feature names are sorted, the
      vocabulary maps each of them to its position, and every vocabulary
      token has an IDF weight. */
  predicate Valid(v: Vectorizer)
  {
    && StrictlySorted(v.featureNames)
    && v.vocabulary.Keys == Elems(v.featureNames)
    && (forall i :: 0 <= i < |v.featureNames| ==> v.vocabulary[v.featureNames[i]] == i)
    && v.idf.Keys == v.vocabulary.Keys
  }

  /** A fresh vectorizer: nothing learned yet. The defaults are word mode
      and the n-gram range (1, 1). */
  function Init(analyzer: string := "word", nMin: int := 1, nMax: int := 1): (v: Vectorizer)
    ensures Valid(v)
    ensures v.analyzer == analyzer && v.nMin == nMin && v.nMax == nMax
    ensures |v.vocabulary| == 0 && |v.featureNames| == 0 && |v.idf| == 0
  {
    Vectorizer(analyzer, nMin, nMax, map[], [], map[])
  }

  /** In a valid state the vocabulary is a bijection between the feature
      names and the positions `0 .. N - 1`. */
  lemma VocabularyBijection(v: Vectorizer)
    requires Valid(v)
    ensures |v.vocabulary| == |v.featureNames|
    ensures forall t :: t in v.vocabulary ==>
      v.vocabulary[t] < |v.featureNames| && v.featureNames[v.vocabulary[t]] == t
    ensures forall s, t :: s in v.vocabulary && t in v.vocabulary && v.vocabulary[s] == v.vocabulary[t] ==> s == t
  {
    SortedIsDistinct(v.featureNames);
    DistinctCard(v.featureNames);
    assert |v.vocabulary| == |v.vocabulary.Keys|;
    forall t | t in v.vocabulary
      ensures v.vocabulary[t] < |v.featureNames| && v.featureNames[v.vocabulary[t]] == t
    {
      var i :| 0 <= i < |v.featureNames| && v.featureNames[i] == t;
    }
  }

  /** `_tokenize`: character n-grams for the analyzer `"char"`, whitespace
      splitting for every other analyzer. */
  function Tokenize(v: Vectorizer, text: string): seq<string>
  {
    if v.analyzer == "char" then Tokenizer.CharTokens(text, v.nMin, v.nMax)
    else Tokenizer.Split(text)
  }

  /** What each mode promises about its tokens: words are non-empty and
      free of whitespace; n-grams (for widths of at least 1) are non-empty
      pieces of the text with a width in the configured range. An empty
      text has no tokens exactly when no configured width is zero or
      below: Python's `""[0:0]` and `""[0:-1]` are the empty string. */
  lemma TokenShape(v: Vectorizer, text: string)
    ensures v.analyzer != "char" ==> forall t :: t in Tokenize(v, text) ==>
      t != [] && Tokenizer.NoWhitespace(t)
    ensures v.analyzer == "char" && 1 <= v.nMin ==> forall t :: t in Tokenize(v, text) ==>
      v.nMin <= |t| <= v.nMax && Tokenizer.IsSubstring(t, text)
    ensures text == [] ==>
      (Tokenize(v, text) == [] <==> v.analyzer != "char" || 1 <= v.nMin || v.nMax < v.nMin)
  {
    if v.analyzer != "char" {
      Tokenizer.SplitWords(text);
      Tokenizer.SplitEmptyIffBlank(text);
    } else {
      if 0 <= v.nMin {
        Tokenizer.CharTokensShape(text, v.nMin, v.nMax);
      }
      if text == [] && (1 <= v.nMin || v.nMax < v.nMin) {
        EmptyTextNoNgrams(v.nMin, v.nMax);
      } else if text == [] {
        EmptyTextHasNgrams(v.nMin, v.nMax);
      }
    }
  }

  /** With a width of zero or below in range, the empty text has at least
      the n-grams of the smallest width: `1 - nMin` of them. */
  lemma EmptyTextHasNgrams(lo: int, hi: int)
    requires lo <= 0 && lo <= hi
    ensures Tokenizer.CharTokens([], lo, hi) != []
  {
    assert Tokenizer.NgramOffset(0, lo, lo + 1) == Tokenizer.NgramCount(0, lo) >= 1;
    Tokenizer.NgramOffsetMonotone(0, lo, lo + 1, hi + 1);
  }

  lemma {:induction false} EmptyTextNoNgrams(lo: int, hi: int)
    requires 1 <= lo || hi < lo
    ensures Tokenizer.CharTokens([], lo, hi) == []
    decreases hi - lo
  {
    if lo <= hi {
      EmptyTextNoNgrams(lo, hi - 1);
    }
  }

  // ---------------------------------------------------------------------
  // fit
  // ---------------------------------------------------------------------

  /** `set(self._tokenize(doc))` for every document, in corpus order. */
  function TokenSets(v: Vectorizer, docs: seq<string>): (sets: seq<set<string>>)
    ensures |sets| == |docs|
    ensures forall i :: 0 <= i < |docs| ==> sets[i] == Elems(Tokenize(v, docs[i]))
  {
    seq(|docs|, i requires 0 <= i < |docs| => Elems(Tokenize(v, docs[i])))
  }

  /** One pass of the inner loop of `fit`: every distinct token of a
      document adds one to its document frequency. */
  function AddDocument(df: map<string, nat>, tokens: set<string>): map<string, nat>
  {
    map t | t in df.Keys + tokens :: (if t in df then df[t] else 0) + (if t in tokens then 1 else 0)
  }

  /** The `df` table `fit` builds, one document's token set at a time. */
  function DocFreqs(sets: seq<set<string>>): (df: map<string, nat>)
    ensures forall t :: t in df ==> 1 <= df[t] <= |sets|
    decreases |sets|
  {
    if sets == [] then map[]
    else AddDocument(DocFreqs(sets[..|sets| - 1]), sets[|sets| - 1])
  }

  /** The positions of the documents whose token sets include `t`. */
  ghost function DocsWith(sets: seq<set<string>>, t: string): set<nat>
  {
    set i: nat | i < |sets| && t in sets[i]
  }

  /** The indices `0 .. n - 1`. */
  function Indices(n: nat): (r: set<nat>)
    ensures |r| == n
    ensures forall i: int :: i in r <==> 0 <= i < n
  {
    if n == 0 then {}
    else
      var r := Indices(n - 1);
      assert n - 1 !in r;
      r + {n - 1}
  }

  /** A document counts once however often the token occurs in it, so the
      document frequency is at most the number of documents. */
  lemma DocsWithBound(sets: seq<set<string>>, t: string)
    ensures |DocsWith(sets, t)| <= |sets|
    ensures |DocsWith(sets, t)| > 0 <==> exists i :: 0 <= i < |sets| && t in sets[i]
  {
    var all := Indices(|sets|);
    SubsetCard(DocsWith(sets, t), all);
    if exists i :: 0 <= i < |sets| && t in sets[i] {
      var i :| 0 <= i < |sets| && t in sets[i];
      assert i in DocsWith(sets, t);
      assert |DocsWith(sets, t)| > 0;
    } else {
      assert DocsWith(sets, t) == {};
    }
  }

  /** The table `fit` builds holds exactly the tokens of the corpus, each
      with the number of documents it occurs in. */
  lemma {:induction false} DocFreqsCountDocuments(sets: seq<set<string>>, t: string)
    ensures t in DocFreqs(sets) <==> exists i :: 0 <= i < |sets| && t in sets[i]
    ensures t in DocFreqs(sets) ==> DocFreqs(sets)[t] == |DocsWith(sets, t)|
    decreases |sets|
  {
    DocsWithBound(sets, t);
    if sets != [] {
      var init := sets[..|sets| - 1];
      var last := |sets| - 1;
      DocFreqsCountDocuments(init, t);
      DocsWithBound(init, t);
      var before := DocsWith(init, t);
      var now := DocsWith(sets, t);
      assert forall i :: 0 <= i < |init| ==> init[i] == sets[i];
      if t in sets[last] {
        assert now == before + {last};
        assert last !in before;
      } else {
        assert now == before;
      }
    }
  }

  /** Token `t` occurs in some document of the corpus. */
  ghost predicate OccursIn(v: Vectorizer, docs: seq<string>, t: string)
  {
    exists i :: 0 <= i < |docs| && t in Tokenize(v, docs[i])
  }

  /** The number of documents whose tokens include `t`. */
  ghost function DocCount(v: Vectorizer, docs: seq<string>, t: string): nat
  {
    |set i: nat | i < |docs| && t in Tokenize(v, docs[i])|
  }

  /** A token occurs in at most every document. */
  lemma DocCountBound(v: Vectorizer, docs: seq<string>, t: string)
    ensures DocCount(v, docs, t) <= |docs|
  {
    var sets := TokenSets(v, docs);
    DocsWithBound(sets, t);
    assert DocsWith(sets, t) == set i: nat | i < |docs| && t in Tokenize(v, docs[i]);
  }

  /** The document frequencies of a corpus, in terms of its documents. */
  lemma DocFreqsOfCorpus(v: Vectorizer, docs: seq<string>)
    ensures forall t :: t in DocFreqs(TokenSets(v, docs)) <==> OccursIn(v, docs, t)
    ensures forall t :: t in DocFreqs(TokenSets(v, docs)) ==>
      DocFreqs(TokenSets(v, docs))[t] == DocCount(v, docs, t)
    ensures forall t :: DocCount(v, docs, t) <= |docs|
  {
    var sets := TokenSets(v, docs);
    forall t
      ensures t in DocFreqs(sets) <==> OccursIn(v, docs, t)
      ensures t in DocFreqs(sets) ==> DocFreqs(sets)[t] == DocCount(v, docs, t)
      ensures DocCount(v, docs, t) <= |docs|
    {
      DocFreqsCountDocuments(sets, t);
      DocsWithBound(sets, t);
      assert DocsWith(sets, t) == set i: nat | i < |docs| && t in Tokenize(v, docs[i]);
      if OccursIn(v, docs, t) {
        var i :| 0 <= i < |docs| && t in Tokenize(v, docs[i]);
        assert t in sets[i];
      }
    }
  }

  /** The smoothed weight `ln((1 + D) / (1 + df)) + 1`. */
  function Idf(ln: real -> real, docCount: nat, df: nat): real
  {
    ln((1 + docCount) as real / (1 + df) as real) + 1.0
  }

  /** What the model needs of `math.log`: it is non-negative from 1 on and
      monotone on the positive reals. */
  ghost predicate IsLogLike(ln: real -> real)
  {
    && (forall x :: x >= 1.0 ==> ln(x) >= 0.0)
    && (forall x, y :: 0.0 < x <= y ==> ln(x) <= ln(y))
  }

  /** The positions `0 .. N - 1` of `names`, keyed by name. */
  function Positions(names: seq<string>): (m: map<string, nat>)
    requires Distinct(names)
    ensures m.Keys == Elems(names)
    ensures forall i :: 0 <= i < |names| ==> m[names[i]] == i
  {
    map i | 0 <= i < |names| :: names[i] := i
  }

  /** The second half of `fit`: from a document-frequency table over `D`
      documents, the sorted feature names, their positions, and the
      smoothed IDF of every token. */
  function Learn(v: Vectorizer, df: map<string, nat>, docCount: nat, ln: real -> real): (r: Vectorizer)
    ensures Valid(r)
    ensures r.analyzer == v.analyzer && r.nMin == v.nMin && r.nMax == v.nMax
    ensures r.vocabulary.Keys == df.Keys
    ensures forall t :: t in r.idf ==> t in df && r.idf[t] == Idf(ln, docCount, df[t])
  {
    var names := SortedOf(df.Keys);
    var idf := map t | t in df :: Idf(ln, docCount, df[t]);
    LearnedStateValid(v, names, idf);
    v.(vocabulary := Positions(names), featureNames := names, idf := idf)
  }

  /** `fit`: count document frequencies, sort the distinct tokens into the
      feature names, number them, and weight each by its smoothed IDF. */
  function Fit(v: Vectorizer, docs: seq<string>, ln: real -> real): (r: Vectorizer)
    ensures Valid(r)
    ensures r.analyzer == v.analyzer && r.nMin == v.nMin && r.nMax == v.nMax
    ensures forall t :: t in r.vocabulary <==> OccursIn(v, docs, t)
    ensures forall t :: t in r.idf ==> r.idf[t] == Idf(ln, |docs|, DocCount(v, docs, t))
  {
    DocFreqsOfCorpus(v, docs);
    Learn(v, DocFreqs(TokenSets(v, docs)), |docs|, ln)
  }

  lemma LearnedStateValid(v: Vectorizer, names: seq<string>, idf: map<string, real>)
    requires StrictlySorted(names)
    requires idf.Keys == Elems(names)
    ensures Distinct(names)
    ensures Valid(v.(vocabulary := Positions(names), featureNames := names, idf := idf))
  {
    SortedIsDistinct(names);
  }

  lemma IdfAtLeastOne(ln: real -> real, docCount: nat, df: nat)
    requires IsLogLike(ln)
    requires df <= docCount
    ensures Idf(ln, docCount, df) >= 1.0
  {
    var ratio := (1 + docCount) as real / (1 + df) as real;
    assert ratio >= 1.0 by {
      assert ratio * (1 + df) as real == (1 + docCount) as real;
    }
  }

  lemma IdfAntitone(ln: real -> real, docCount: nat, a: nat, b: nat)
    requires IsLogLike(ln)
    requires a <= b
    ensures Idf(ln, docCount, a) >= Idf(ln, docCount, b)
  {
    var ra := (1 + docCount) as real / (1 + a) as real;
    var rb := (1 + docCount) as real / (1 + b) as real;
    assert 0.0 < rb <= ra by {
      assert ra * (1 + a) as real == (1 + docCount) as real;
      assert rb * (1 + b) as real == (1 + docCount) as real;
    }
  }

  /** Every weight `fit` learns is at least 1, even for a token that
      occurs in every document. */
  lemma FitIdfAtLeastOne(v: Vectorizer, docs: seq<string>, ln: real -> real)
    requires IsLogLike(ln)
    ensures forall t :: t in Fit(v, docs, ln).idf ==> Fit(v, docs, ln).idf[t] >= 1.0
  {
    forall t | t in Fit(v, docs, ln).idf
      ensures Fit(v, docs, ln).idf[t] >= 1.0
    {
      DocCountBound(v, docs, t);
      FitIdfOfToken(v, docs, ln, t);
    }
  }

  lemma FitIdfOfToken(v: Vectorizer, docs: seq<string>, ln: real -> real, t: string)
    requires IsLogLike(ln)
    requires t in Fit(v, docs, ln).idf
    requires DocCount(v, docs, t) <= |docs|
    ensures Fit(v, docs, ln).idf[t] >= 1.0
  {
    var d := DocCount(v, docs, t);
    assert Fit(v, docs, ln).idf[t] == Idf(ln, |docs|, d);
    IdfAtLeastOne(ln, |docs|, d);
  }

  /** A token in fewer documents weighs at least as much, and tokens in
      equally many documents weigh the same. */
  lemma FitIdfAntitone(v: Vectorizer, docs: seq<string>, ln: real -> real, s: string, t: string)
    requires IsLogLike(ln)
    requires s in Fit(v, docs, ln).idf && t in Fit(v, docs, ln).idf
    ensures DocCount(v, docs, s) <= DocCount(v, docs, t) ==> Fit(v, docs, ln).idf[s] >= Fit(v, docs, ln).idf[t]
    ensures DocCount(v, docs, s) == DocCount(v, docs, t) ==> Fit(v, docs, ln).idf[s] == Fit(v, docs, ln).idf[t]
  {
    if DocCount(v, docs, s) <= DocCount(v, docs, t) {
      IdfAntitone(ln, |docs|, DocCount(v, docs, s), DocCount(v, docs, t));
    }
  }

  /** Fitting an empty corpus learns nothing. */
  lemma FitEmptyCorpus(v: Vectorizer, ln: real -> real)
    ensures Fit(v, [], ln).vocabulary == map[]
    ensures Fit(v, [], ln).featureNames == []
    ensures Fit(v, [], ln).idf == map[]
  {
  }

  /** The vocabulary is determined by the corpus alone: it is the one
      sorted sequence of the corpus tokens. */
  lemma FitFeatureNamesUnique(v: Vectorizer, docs: seq<string>, ln: real -> real, names: seq<string>)
    requires StrictlySorted(names)
    requires forall t :: t in names <==> OccursIn(v, docs, t)
    ensures Fit(v, docs, ln).featureNames == names
  {
    var r := Fit(v, docs, ln);
    assert Elems(r.featureNames) == r.vocabulary.Keys;
    assert Elems(names) == r.vocabulary.Keys;
    SortedUnique(r.featureNames, names);
  }
}
