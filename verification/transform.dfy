/** `transform` and `fit_transform`: term frequencies scaled by the
    document's largest in-vocabulary count, times the learned IDF, in a
    zero-filled vector over the vocabulary. */
module TfidfTransform {
  import opened Seqs
  import opened Tfidf

  /** The in-vocabulary tokens of a document, in order, repeats kept. */
  function InVocabulary(tokens: seq<string>, vocab: map<string, nat>): (r: seq<string>)
    ensures forall t :: t in r <==> t in tokens && t in vocab
    decreases |tokens|
  {
    if tokens == [] then []
    else
      var rest := InVocabulary(tokens[1..], vocab);
      assert forall t :: t in tokens <==> t == tokens[0] || t in tokens[1..];
      if tokens[0] in vocab then [tokens[0]] + rest else rest
  }

  /** The `tf` dict of `transform` as its list of items: each in-vocabulary
      token once, in order of first occurrence, with its number of
      occurrences in the document. */
  function TermFreqs(tokens: seq<string>, vocab: map<string, nat>): (tf: seq<(string, nat)>)
    ensures forall i, j :: 0 <= i < j < |tf| ==> tf[i].0 != tf[j].0
    ensures forall i :: 0 <= i < |tf| ==>
      tf[i].0 in tokens && tf[i].0 in vocab && tf[i].1 == multiset(tokens)[tf[i].0] && tf[i].1 >= 1
    ensures forall t :: t in tokens && t in vocab ==> exists i :: 0 <= i < |tf| && tf[i].0 == t
  {
    var keys := Dedup(InVocabulary(tokens, vocab));
    var tf := seq(|keys|, i requires 0 <= i < |keys| => (keys[i], multiset(tokens)[keys[i]]));
    TermFreqKeys(tokens, vocab, keys, tf);
    tf
  }

  lemma TermFreqKeys(tokens: seq<string>, vocab: map<string, nat>, keys: seq<string>, tf: seq<(string, nat)>)
    requires keys == Dedup(InVocabulary(tokens, vocab))
    requires |tf| == |keys|
    requires forall i :: 0 <= i < |tf| ==> tf[i] == (keys[i], multiset(tokens)[keys[i]])
    ensures forall i, j :: 0 <= i < j < |tf| ==> tf[i].0 != tf[j].0
    ensures forall i :: 0 <= i < |tf| ==>
      tf[i].0 in tokens && tf[i].0 in vocab && tf[i].1 == multiset(tokens)[tf[i].0] && tf[i].1 >= 1
    ensures forall t :: t in tokens && t in vocab ==> exists i :: 0 <= i < |tf| && tf[i].0 == t
  {
    var filtered := InVocabulary(tokens, vocab);
    assert Elems(keys) == Elems(filtered);
    forall i | 0 <= i < |tf|
      ensures tf[i].0 in tokens && tf[i].0 in vocab && tf[i].1 >= 1
    {
      assert keys[i] in Elems(keys);
      assert keys[i] in filtered;
    }
    forall t | t in tokens && t in vocab
      ensures exists i :: 0 <= i < |tf| && tf[i].0 == t
    {
      assert t in Elems(filtered);
      assert t in Elems(keys);
      var i :| 0 <= i < |keys| && keys[i] == t;
      assert tf[i].0 == t;
    }
  }

  /** The largest count of a non-empty item list. */
  function LargestCount(tf: seq<(string, nat)>): (m: nat)
    requires tf != []
    ensures forall i :: 0 <= i < |tf| ==> tf[i].1 <= m
    ensures exists i :: 0 <= i < |tf| && tf[i].1 == m
    decreases |tf|
  {
    if |tf| == 1 then tf[0].1
    else
      var m := LargestCount(tf[1..]);
      assert forall i :: 1 <= i < |tf| ==> tf[i] == tf[1..][i - 1];
      if tf[0].1 > m then tf[0].1 else m
  }

  /** `max(tf.values()) if tf else 1`. */
  function MaxTf(tf: seq<(string, nat)>): (m: nat)
    ensures tf == [] ==> m == 1
    ensures forall i :: 0 <= i < |tf| ==> tf[i].1 <= m
    ensures tf != [] ==> exists i :: 0 <= i < |tf| && tf[i].1 == m
  {
    if tf == [] then 1 else LargestCount(tf)
  }

  /** `(count / max_tf) * idf`. */
  function Weight(count: nat, maxTf: nat, idf: real): real
    requires maxTf > 0
  {
    (count as real / maxTf as real) * idf
  }

  /** The loop `for token, count in tf.items(): vector[idx] = ...`: each
      item writes its own slot; slots no item names keep their value. */
  function Fill(vector: seq<real>, tf: seq<(string, nat)>, vocab: map<string, nat>,
                idf: map<string, real>, maxTf: nat): (r: seq<real>)
    requires maxTf > 0
    requires forall i :: 0 <= i < |tf| ==> tf[i].0 in vocab && vocab[tf[i].0] < |vector| && tf[i].0 in idf
    requires forall i, j :: 0 <= i < j < |tf| ==> vocab[tf[i].0] != vocab[tf[j].0]
    ensures |r| == |vector|
    ensures forall i :: 0 <= i < |tf| ==> r[vocab[tf[i].0]] == Weight(tf[i].1, maxTf, idf[tf[i].0])
    ensures forall k :: 0 <= k < |vector| && (forall i :: 0 <= i < |tf| ==> vocab[tf[i].0] != k) ==>
      r[k] == vector[k]
    decreases |tf|
  {
    if tf == [] then vector
    else
      var t := tf[0].0;
      var rest := tf[1..];
      assert forall i :: 1 <= i < |tf| ==> tf[i] == rest[i - 1];
      Fill(vector[vocab[t] := Weight(tf[0].1, maxTf, idf[t])], rest, vocab, idf, maxTf)
  }

  /** `max_tf` of a token list: the largest number of occurrences of an
      in-vocabulary token, or 1 when there is none. */
  function MaxTfOf(tokens: seq<string>, vocab: map<string, nat>): (m: nat)
    ensures m >= 1
    ensures forall t :: t in tokens && t in vocab ==> multiset(tokens)[t] <= m
    ensures (exists t :: t in tokens && t in vocab) ==>
      exists t :: t in tokens && t in vocab && multiset(tokens)[t] == m
    ensures (forall t :: t in tokens ==> t !in vocab) ==> m == 1
  {
    var tf := TermFreqs(tokens, vocab);
    var m := MaxTf(tf);
    assert forall t :: t in tokens && t in vocab ==> multiset(tokens)[t] <= m by {
      forall t | t in tokens && t in vocab
        ensures multiset(tokens)[t] <= m
      {
        var i :| 0 <= i < |tf| && tf[i].0 == t;
      }
    }
    if tf != [] then
      var i :| 0 <= i < |tf| && tf[i].1 == m;
      assert tf[0].0 in tokens && tf[0].0 in vocab;
      assert tf[i].0 in tokens && tf[i].0 in vocab && multiset(tokens)[tf[i].0] == m;
      m
    else
      m
  }

  /** The value `transform` puts in slot `k` for a document with these
      tokens: the scaled count times the IDF if the slot's token occurs,
      zero otherwise. */
  function Slot(v: Vectorizer, tokens: seq<string>, k: nat): real
    requires Valid(v)
    requires k < |v.featureNames|
  {
    var t := v.featureNames[k];
    if t in tokens then Weight(multiset(tokens)[t], MaxTfOf(tokens, v.vocabulary), v.idf[t]) else 0.0
  }

  /** The vector of one token list: zeros over the vocabulary, then one
      write per `tf` item. */
  function VectorOf(v: Vectorizer, tokens: seq<string>): (r: seq<real>)
    requires Valid(v)
    ensures |r| == |v.vocabulary| == |v.featureNames|
    ensures forall k :: 0 <= k < |r| ==> r[k] == Slot(v, tokens, k)
  {
    VocabularyBijection(v);
    var tf := TermFreqs(tokens, v.vocabulary);
    var maxTf := MaxTf(tf);
    assert maxTf == MaxTfOf(tokens, v.vocabulary);
    var zeros := seq(|v.vocabulary|, _ => 0.0);
    var r := Fill(zeros, tf, v.vocabulary, v.idf, maxTf);
    FilledSlots(v, tokens, tf, maxTf, zeros, r);
    r
  }

  lemma FilledSlots(v: Vectorizer, tokens: seq<string>, tf: seq<(string, nat)>, maxTf: nat,
                    zeros: seq<real>, r: seq<real>)
    requires Valid(v)
    requires tf == TermFreqs(tokens, v.vocabulary)
    requires maxTf == MaxTfOf(tokens, v.vocabulary) == MaxTf(tf)
    requires zeros == seq(|v.vocabulary|, _ => 0.0)
    requires |v.vocabulary| == |v.featureNames|
    requires forall i :: 0 <= i < |tf| ==> tf[i].0 in v.vocabulary && v.vocabulary[tf[i].0] < |zeros| && tf[i].0 in v.idf
    requires forall i, j :: 0 <= i < j < |tf| ==> v.vocabulary[tf[i].0] != v.vocabulary[tf[j].0]
    requires r == Fill(zeros, tf, v.vocabulary, v.idf, maxTf)
    ensures forall k :: 0 <= k < |r| ==> r[k] == Slot(v, tokens, k)
  {
    forall k | 0 <= k < |r|
      ensures r[k] == Slot(v, tokens, k)
    {
      var t := v.featureNames[k];
      if t in tokens {
        var i :| 0 <= i < |tf| && tf[i].0 == t;
        assert v.vocabulary[t] == k;
        assert r[k] == Weight(tf[i].1, maxTf, v.idf[t]);
      } else {
        UntouchedSlot(v, tf, k);
        assert r[k] == zeros[k];
      }
    }
  }

  /** No item of `tf` names a slot whose token is not among its keys. */
  lemma UntouchedSlot(v: Vectorizer, tf: seq<(string, nat)>, k: nat)
    requires Valid(v)
    requires k < |v.featureNames|
    requires forall i :: 0 <= i < |tf| ==> tf[i].0 in v.vocabulary
    requires forall i :: 0 <= i < |tf| ==> tf[i].0 != v.featureNames[k]
    ensures forall i :: 0 <= i < |tf| ==> v.vocabulary[tf[i].0] != k
  {
    VocabularyBijection(v);
  }

  /** The vector `transform` produces for one document. */
  function Vectorize(v: Vectorizer, doc: string): (r: seq<real>)
    requires Valid(v)
    ensures |r| == |v.featureNames|
    ensures forall k :: 0 <= k < |r| ==> r[k] == Slot(v, Tokenize(v, doc), k)
  {
    VectorOf(v, Tokenize(v, doc))
  }

  /** `transform`: one vector per document, in input order. */
  function Transform(v: Vectorizer, docs: seq<string>): (x: seq<seq<real>>)
    requires Valid(v)
    ensures |x| == |docs|
    ensures forall i :: 0 <= i < |docs| ==> x[i] == Vectorize(v, docs[i])
  {
    seq(|docs|, i requires 0 <= i < |docs| => Vectorize(v, docs[i]))
  }

  /** `fit_transform`: fit on the corpus, then transform the same corpus with
      the fitted state. Every token of the corpus is in the learned
      vocabulary, so no document loses a token to the vocabulary filter. */
  function FitTransform(v: Vectorizer, docs: seq<string>, ln: real -> real): (r: (Vectorizer, seq<seq<real>>))
    ensures r.0 == Fit(v, docs, ln)
    ensures Valid(r.0)
    ensures forall i, t :: 0 <= i < |docs| && t in Tokenize(r.0, docs[i]) ==> t in r.0.vocabulary
    ensures |r.1| == |docs|
    ensures forall i :: 0 <= i < |docs| ==> r.1[i] == Vectorize(r.0, docs[i])
  {
    var fitted := Fit(v, docs, ln);
    forall i, t | 0 <= i < |docs| && t in Tokenize(fitted, docs[i])
      ensures t in fitted.vocabulary
    {
      assert Tokenize(fitted, docs[i]) == Tokenize(v, docs[i]);
      assert OccursIn(v, docs, t);
    }
    (fitted, Transform(fitted, docs))
  }

  // ---------------------------------------------------------------------
  // Properties of the vectors
  // ---------------------------------------------------------------------

  /** Every IDF weight of the state is at least 1, as `fit` guarantees. */
  predicate WeightsAtLeastOne(v: Vectorizer)
  {
    forall t :: t in v.idf ==> v.idf[t] >= 1.0
  }

  /** A count between 1 and `max_tf` scales a weight of at least 1 into
      `(0, idf]`, reaching `idf` exactly at `max_tf`. */
  lemma WeightBounds(c: nat, m: nat, w: real)
    requires 1 <= c <= m
    requires w >= 1.0
    ensures 0.0 < c as real / m as real <= 1.0
    ensures 0.0 < Weight(c, m, w) <= w
    ensures Weight(c, m, w) == w <==> c == m
  {
    var ratio := c as real / m as real;
    assert ratio * m as real == c as real;
    if c == m {
      assert ratio == 1.0;
    } else {
      assert ratio < 1.0;
      assert ratio * w < w;
    }
  }

  /** A slot is non-zero exactly when its token occurs in the document; a
      non-zero slot lies in `(0, idf]` and equals `idf` exactly when its
      token is one of the most frequent in-vocabulary tokens. */
  lemma SlotBounds(v: Vectorizer, tokens: seq<string>, k: nat)
    requires Valid(v) && WeightsAtLeastOne(v)
    requires k < |v.featureNames|
    ensures Slot(v, tokens, k) != 0.0 <==> v.featureNames[k] in tokens
    ensures 0.0 <= Slot(v, tokens, k) <= v.idf[v.featureNames[k]]
    ensures Slot(v, tokens, k) == v.idf[v.featureNames[k]] <==>
      v.featureNames[k] in tokens &&
      multiset(tokens)[v.featureNames[k]] == MaxTfOf(tokens, v.vocabulary)
  {
    var t := v.featureNames[k];
    assert t in Elems(v.featureNames);
    var w := v.idf[t];
    assert w >= 1.0;
    if t in tokens {
      var c := multiset(tokens)[t];
      var m := MaxTfOf(tokens, v.vocabulary);
      assert 1 <= c <= m;
      WeightBounds(c, m, w);
    }
  }

  /** A count divided by itself scales the weight by exactly 1, whatever the
      weight. */
  lemma WeightAtMax(m: nat, w: real)
    requires 1 <= m
    ensures Weight(m, m, w) == w
  {
    assert m as real / m as real == 1.0;
  }

  /** The slot of a document's most frequent in-vocabulary token is exactly
      its IDF, whatever that IDF is. */
  lemma MostFrequentSlotIsIdf(v: Vectorizer, tokens: seq<string>, k: nat)
    requires Valid(v)
    requires k < |v.featureNames|
    requires v.featureNames[k] in tokens
    requires forall s :: s in tokens && s in v.vocabulary ==>
      multiset(tokens)[s] <= multiset(tokens)[v.featureNames[k]]
    ensures Slot(v, tokens, k) == v.idf[v.featureNames[k]]
  {
    var t := v.featureNames[k];
    assert t in Elems(v.featureNames);
    var m := MaxTfOf(tokens, v.vocabulary);
    var s :| s in tokens && s in v.vocabulary && multiset(tokens)[s] == m;
    assert multiset(tokens)[t] == m;
    WeightAtMax(m, v.idf[t]);
  }

  /** Out-of-vocabulary tokens are ignored: a document without any
      in-vocabulary token (an empty one, say) uses `max_tf = 1` and gets the
      all-zero vector. */
  lemma UnknownTokensGiveZeroVector(v: Vectorizer, doc: string)
    requires Valid(v)
    requires forall t :: t in Tokenize(v, doc) ==> t !in v.vocabulary
    ensures MaxTfOf(Tokenize(v, doc), v.vocabulary) == 1
    ensures forall k :: 0 <= k < |Vectorize(v, doc)| ==> Vectorize(v, doc)[k] == 0.0
  {
    var r := Vectorize(v, doc);
    forall k | 0 <= k < |r|
      ensures r[k] == 0.0
    {
      assert v.featureNames[k] in Elems(v.featureNames);
    }
  }

  /** On the corpus it was fitted on, `fit_transform` gives each document a
      non-zero slot exactly for each of its tokens, with every slot in
      `[0, idf]`. */
  lemma FitTransformSlots(v: Vectorizer, docs: seq<string>, ln: real -> real, i: nat, k: nat)
    requires IsLogLike(ln)
    requires i < |docs|
    requires k < |Fit(v, docs, ln).featureNames|
    ensures var fitted := Fit(v, docs, ln);
      var slot := FitTransform(v, docs, ln).1[i][k];
      && fitted.featureNames[k] in fitted.idf
      && (slot != 0.0 <==> fitted.featureNames[k] in Tokenize(v, docs[i]))
      && 0.0 <= slot <= fitted.idf[fitted.featureNames[k]]
  {
    FitIdfAtLeastOne(v, docs, ln);
    FittedSlots(v, docs, ln, i, k);
  }

  lemma FittedSlots(v: Vectorizer, docs: seq<string>, ln: real -> real, i: nat, k: nat)
    requires WeightsAtLeastOne(Fit(v, docs, ln))
    requires i < |docs|
    requires k < |Fit(v, docs, ln).featureNames|
    ensures var fitted := Fit(v, docs, ln);
      var slot := FitTransform(v, docs, ln).1[i][k];
      && fitted.featureNames[k] in fitted.idf
      && (slot != 0.0 <==> fitted.featureNames[k] in Tokenize(v, docs[i]))
      && 0.0 <= slot <= fitted.idf[fitted.featureNames[k]]
  {
    var fitted := Fit(v, docs, ln);
    assert Tokenize(fitted, docs[i]) == Tokenize(v, docs[i]);
    SlotBounds(fitted, Tokenize(v, docs[i]), k);
  }

  /** A document with an in-vocabulary token has a slot equal to that
      slot's IDF: its most frequent in-vocabulary token scales to exactly 1. */
  lemma HasTopSlot(v: Vectorizer, doc: string) returns (k: nat)
    requires Valid(v)
    requires exists s :: s in Tokenize(v, doc) && s in v.vocabulary
    ensures k < |Vectorize(v, doc)| && v.featureNames[k] in Tokenize(v, doc)
    ensures Vectorize(v, doc)[k] == v.idf[v.featureNames[k]]
  {
    var tokens := Tokenize(v, doc);
    var t := TopToken(v, tokens);
    k := v.vocabulary[t];
    MostFrequentSlotIsIdf(v, tokens, k);
  }

  /** Every document with at least one token has, after `fit_transform` on
      its corpus, a slot equal to that slot's IDF. */
  lemma FitTransformHasTopSlot(v: Vectorizer, docs: seq<string>, ln: real -> real, i: nat)
    requires i < |docs| && Tokenize(v, docs[i]) != []
    ensures var fitted := Fit(v, docs, ln);
      var x := FitTransform(v, docs, ln).1;
      exists k :: 0 <= k < |x[i]| && fitted.featureNames[k] in fitted.idf && x[i][k] == fitted.idf[fitted.featureNames[k]]
  {
    var fitted := Fit(v, docs, ln);
    var tokens := Tokenize(v, docs[i]);
    CorpusTokensKnown(v, docs, ln, i);
    assert Tokenize(fitted, docs[i]) == tokens;
    assert tokens[0] in tokens && tokens[0] in fitted.vocabulary;
    var k := HasTopSlot(fitted, docs[i]);
    var row := FitTransform(v, docs, ln).1[i];
    assert row == Vectorize(fitted, docs[i]);
    assert 0 <= k < |row| && fitted.featureNames[k] in fitted.idf && row[k] == fitted.idf[fitted.featureNames[k]];
  }

  /** The tokens of a corpus document are all in the vocabulary fitted on
      that corpus. */
  lemma CorpusTokensKnown(v: Vectorizer, docs: seq<string>, ln: real -> real, i: nat)
    requires i < |docs|
    ensures forall t :: t in Tokenize(v, docs[i]) ==> t in Fit(v, docs, ln).vocabulary
  {
    forall t | t in Tokenize(v, docs[i])
      ensures t in Fit(v, docs, ln).vocabulary
    {
      assert OccursIn(v, docs, t);
    }
  }

  /** A most frequent in-vocabulary token of a token list that has one. */
  lemma TopToken(v: Vectorizer, tokens: seq<string>) returns (t: string)
    requires Valid(v)
    requires exists s :: s in tokens && s in v.vocabulary
    ensures t in tokens && t in v.vocabulary
    ensures v.vocabulary[t] < |v.featureNames| && v.featureNames[v.vocabulary[t]] == t
    ensures forall s :: s in tokens && s in v.vocabulary ==> multiset(tokens)[s] <= multiset(tokens)[t]
  {
    var m := MaxTfOf(tokens, v.vocabulary);
    t :| t in tokens && t in v.vocabulary && multiset(tokens)[t] == m;
    VocabularyBijection(v);
  }
}
