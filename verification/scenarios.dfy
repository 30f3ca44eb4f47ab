/** Two worked corpora: character bigrams of a short word, and a two-document
    word corpus whose shared and unshared words get equal and larger
    weights. */
module Scenarios {
  import opened Seqs
  import opened LexOrder
  import opened Tfidf
  import Tokenizer

  /** Bigrams of `"abc"` are `"ab"` and `"bc"`; `"a"` is too short for any. */
  lemma CharBigrams(v: Vectorizer)
    requires v.analyzer == "char" && v.nMin == 2 && v.nMax == 2
    ensures Tokenize(v, "abc") == ["ab", "bc"]
    ensures Tokenize(v, "a") == []
  {
    var r := Tokenizer.CharNgrams("abc", 2);
    assert r[0] == "abc"[0..2] == "ab";
    assert r[1] == "abc"[1..3] == "bc";
    assert Tokenizer.CharTokens("abc", 2, 2) == Tokenizer.CharTokens("abc", 2, 1) + r;
    assert Tokenizer.CharTokens("a", 2, 2) == Tokenizer.CharTokens("a", 2, 1) + Tokenizer.CharNgrams("a", 2);
  }

  /** Three words with a single space between each pair split back into
      those three words. */
  lemma ThreeWords(v: Vectorizer, doc: string, a: string, b: string, c: string)
    requires v.analyzer != "char"
    requires a != [] && Tokenizer.NoWhitespace(a)
    requires b != [] && Tokenizer.NoWhitespace(b)
    requires c != [] && Tokenizer.NoWhitespace(c)
    requires doc == a + " " + b + " " + c
    ensures Tokenize(v, doc) == [a, b, c]
  {
    var gaps := ["", " ", " ", ""];
    var words := [a, b, c];
    assert Tokenizer.Separates(gaps, words);
    assert Tokenizer.Join(gaps, words) == doc by {
      assert Tokenizer.Join(gaps[3..], words[3..]) == "";
      assert Tokenizer.Join(gaps[2..], words[2..]) == " " + c;
      assert Tokenizer.Join(gaps[1..], words[1..]) == " " + b + " " + c;
    }
    Tokenizer.SplitJoin(gaps, words);
  }

  /** Fitting two documents that split into `the cat sat` and `the dog sat`
      (as `"the cat sat"` and `"the dog sat"` do in word mode, by
      `ThreeWords`) gives the sorted vocabulary `cat, dog, sat, the`; the two
      words in both documents weigh the same, and no more than a word in one
      document. */
  lemma WordCorpus(v: Vectorizer, docs: seq<string>, ln: real -> real)
    requires |docs| == 2
    requires Tokenize(v, docs[0]) == ["the", "cat", "sat"]
    requires Tokenize(v, docs[1]) == ["the", "dog", "sat"]
    requires IsLogLike(ln)
    ensures var r := Fit(v, docs, ln);
      && r.featureNames == ["cat", "dog", "sat", "the"]
      && r.vocabulary == map["cat" := 0, "dog" := 1, "sat" := 2, "the" := 3]
      && r.idf["sat"] == r.idf["the"]
      && r.idf["cat"] == r.idf["dog"] >= r.idf["sat"]
  {
    WordCorpusVocabulary(v, docs, ln);
    WordCorpusCounts(v, docs);
    FitIdfAntitone(v, docs, ln, "sat", "the");
    FitIdfAntitone(v, docs, ln, "cat", "dog");
    FitIdfAntitone(v, docs, ln, "cat", "sat");
  }

  /** In a two-document corpus a token occurs iff one of the two documents
      has it. */
  lemma TwoDocOccurs(v: Vectorizer, docs: seq<string>, t: string)
    requires |docs| == 2
    ensures OccursIn(v, docs, t) <==> t in Tokenize(v, docs[0]) || t in Tokenize(v, docs[1])
  {
    if OccursIn(v, docs, t) {
      var i :| 0 <= i < |docs| && t in Tokenize(v, docs[i]);
      assert i == 0 || i == 1;
    }
  }

  /** In a two-document corpus a token's document count is the number of the
      two documents that have it. */
  lemma TwoDocCount(v: Vectorizer, docs: seq<string>, t: string)
    requires |docs| == 2
    ensures DocCount(v, docs, t) ==
      (if t in Tokenize(v, docs[0]) then 1 else 0) + (if t in Tokenize(v, docs[1]) then 1 else 0)
  {
    var s := set i: nat | i < |docs| && t in Tokenize(v, docs[i]);
    var e := (if t in Tokenize(v, docs[0]) then {0} else {}) + (if t in Tokenize(v, docs[1]) then {1} else {});
    forall i: nat | i in s
      ensures i in e
    {
      assert i == 0 || i == 1;
    }
    assert s == e;
  }

  lemma WordCorpusVocabulary(v: Vectorizer, docs: seq<string>, ln: real -> real)
    requires |docs| == 2
    requires Tokenize(v, docs[0]) == ["the", "cat", "sat"]
    requires Tokenize(v, docs[1]) == ["the", "dog", "sat"]
    ensures var r := Fit(v, docs, ln);
      && r.featureNames == ["cat", "dog", "sat", "the"]
      && r.vocabulary == map["cat" := 0, "dog" := 1, "sat" := 2, "the" := 3]
  {
    var names := ["cat", "dog", "sat", "the"];
    SortedWords();
    forall t
      ensures t in names <==> OccursIn(v, docs, t)
    {
      TwoDocOccurs(v, docs, t);
    }
    FitFeatureNamesUnique(v, docs, ln, names);
    VocabularyOfNames(Fit(v, docs, ln));
  }

  lemma SortedWords()
    ensures StrictlySorted(["cat", "dog", "sat", "the"])
  {
    assert Less("cat", "dog") && Less("dog", "sat") && Less("sat", "the");
    assert Less("cat", "sat") && Less("cat", "the") && Less("dog", "the");
  }

  lemma VocabularyOfNames(r: Vectorizer)
    requires Valid(r)
    requires r.featureNames == ["cat", "dog", "sat", "the"]
    ensures r.vocabulary == map["cat" := 0, "dog" := 1, "sat" := 2, "the" := 3]
  {
    assert r.vocabulary.Keys == Elems(r.featureNames) == {"cat", "dog", "sat", "the"};
    assert r.vocabulary["cat"] == 0 && r.vocabulary["dog"] == 1;
    assert r.vocabulary["sat"] == 2 && r.vocabulary["the"] == 3;
  }

  lemma WordCorpusCounts(v: Vectorizer, docs: seq<string>)
    requires |docs| == 2
    requires Tokenize(v, docs[0]) == ["the", "cat", "sat"]
    requires Tokenize(v, docs[1]) == ["the", "dog", "sat"]
    ensures DocCount(v, docs, "sat") == DocCount(v, docs, "the") == 2
    ensures DocCount(v, docs, "cat") == DocCount(v, docs, "dog") == 1
  {
    TwoDocCount(v, docs, "sat");
    TwoDocCount(v, docs, "the");
    TwoDocCount(v, docs, "cat");
    TwoDocCount(v, docs, "dog");
  }
}
