/** The two tokenizers of the vectorizer: sliding character n-grams, and
    Python's argument-less `str.split()`. */
module Tokenizer {

  /** The code points Python's `str.isspace` accepts, which are the
      separators of `str.split()` without arguments. */
  predicate IsWhitespace(c: char)
  {
    || ('\U{9}' <= c <= '\U{D}')
    || ('\U{1C}' <= c <= '\U{20}')
    || c == '\U{85}' || c == '\U{A0}' || c == '\U{1680}'
    || ('\U{2000}' <= c <= '\U{200A}')
    || c == '\U{2028}' || c == '\U{2029}' || c == '\U{202F}'
    || c == '\U{205F}' || c == '\U{3000}'
  }

  predicate AllWhitespace(s: string)
  {
    forall i :: 0 <= i < |s| ==> IsWhitespace(s[i])
  }

  predicate NoWhitespace(s: string)
  {
    forall i :: 0 <= i < |s| ==> !IsWhitespace(s[i])
  }

  // ---------------------------------------------------------------------
  // Character n-grams
  // ---------------------------------------------------------------------

  /** Where a Python slice bound `k` lands in a string of length `len`:
      negative bounds count from the end, and both ends are clamped. */
  function SliceBound(k: int, len: nat): (r: nat)
    ensures r <= len
    ensures 0 <= k <= len ==> r == k
  {
    if k < 0 then (if k + len < 0 then 0 else k + len)
    else if k > len then len
    else k
  }

  /** Python's `s[a:b]`. */
  function Slice(s: string, a: int, b: int): (r: string)
    ensures 0 <= a <= b <= |s| ==> r == s[a..b]
  {
    var lo := SliceBound(a, |s|);
    var hi := SliceBound(b, |s|);
    if lo < hi then s[lo..hi] else []
  }

  /** The length of Python's `range(len - n + 1)`. */
  function NgramCount(len: nat, n: int): nat
  {
    if len - n + 1 > 0 then len - n + 1 else 0
  }

  /** `[text[i:i + n] for i in range(len(text) - n + 1)]`. */
  function CharNgrams(text: string, n: int): (r: seq<string>)
    ensures |r| == NgramCount(|text|, n)
    ensures n > |text| ==> r == []
    ensures 0 <= n ==> forall i :: 0 <= i < |r| ==> |r[i]| == n && r[i] == text[i..i + n]
  {
    var r := seq(NgramCount(|text|, n), i requires 0 <= i < NgramCount(|text|, n) => Slice(text, i, i + n));
    NgramsArePlainSlices(text, n, r);
    r
  }

  /** Every index below the n-gram count keeps `i + n` within the text, so
      each Python slice is a plain subsequence of width `n`. */
  lemma NgramsArePlainSlices(text: string, n: int, r: seq<string>)
    requires |r| == NgramCount(|text|, n)
    requires forall i :: 0 <= i < |r| ==> r[i] == Slice(text, i, i + n)
    ensures 0 <= n ==> forall i :: 0 <= i < |r| ==> |r[i]| == n && r[i] == text[i..i + n]
  {
    if 0 <= n {
      forall i | 0 <= i < |r|
        ensures |r[i]| == n && r[i] == text[i..i + n]
      {
        assert r[i] == Slice(text, i, i + n);
      }
    }
  }

  /** The sliding window of width `n` over `text`, one step at a time:
      the first window, then the windows of the text without its first
      character. */
  function Windows(text: string, n: nat): seq<string>
    decreases |text|
  {
    if |text| < n then []
    else if |text| == n then [text]
    else [text[..n]] + Windows(text[1..], n)
  }

  /** For every width that Python slices as a plain window, the n-grams are
      exactly the sliding windows from left to right. */
  lemma {:induction false} CharNgramsAreWindows(text: string, n: nat)
    ensures CharNgrams(text, n) == Windows(text, n)
    decreases |text|
  {
    var r := CharNgrams(text, n);
    if |text| > n {
      CharNgramsAreWindows(text[1..], n);
      var w := Windows(text[1..], n);
      assert |r| == 1 + |w|;
      forall i | 0 <= i < |r|
        ensures r[i] == ([text[..n]] + w)[i]
      {
        if i > 0 {
          assert w[i - 1] == text[1..][i - 1..i - 1 + n];
        }
      }
    } else if |text| == n {
      assert r[0] == text[0..n] == text;
    }
  }

  /** Number of n-grams for the widths `lo .. n - 1`: the position in the
      concatenated token list where the n-grams of width `n` begin. */
  function NgramOffset(len: nat, lo: int, n: int): nat
    decreases n - lo
  {
    if n <= lo then 0 else NgramOffset(len, lo, n - 1) + NgramCount(len, n - 1)
  }

  /** Where the n-grams of width `n` end. */
  function NgramEnd(len: nat, lo: int, n: int): nat
  {
    NgramOffset(len, lo, n) + NgramCount(len, n)
  }

  lemma {:induction false} NgramOffsetMonotone(len: nat, lo: int, a: int, b: int)
    requires a <= b
    ensures NgramOffset(len, lo, a) <= NgramOffset(len, lo, b)
    decreases b - a
  {
    if a < b {
      NgramOffsetMonotone(len, lo, a, b - 1);
    }
  }

  /** The char-mode loop: for n in `lo ..= hi`, append the n-grams of width
      n. Block n of the result is exactly `CharNgrams(text, n)`. */
  function CharTokens(text: string, lo: int, hi: int): (r: seq<string>)
    ensures |r| == NgramOffset(|text|, lo, hi + 1)
    decreases hi - lo
  {
    if hi < lo then []
    else CharTokens(text, lo, hi - 1) + CharNgrams(text, hi)
  }

  /** Block n of the char-mode token list, at offset `NgramOffset(n)`, is
      exactly `CharNgrams(text, n)`. */
  lemma {:induction false} CharTokensBlocks(text: string, lo: int, hi: int)
    ensures forall n {:trigger CharNgrams(text, n)} {:trigger NgramEnd(|text|, lo, n)} :: lo <= n <= hi ==>
      NgramEnd(|text|, lo, n) <= |CharTokens(text, lo, hi)| &&
      CharTokens(text, lo, hi)[NgramOffset(|text|, lo, n)..NgramEnd(|text|, lo, n)] == CharNgrams(text, n)
    decreases hi - lo
  {
    if lo <= hi {
      var prefix := CharTokens(text, lo, hi - 1);
      CharTokensBlocks(text, lo, hi - 1);
      CharTokensPrefix(text, lo, hi, prefix, CharNgrams(text, hi));
      assert CharTokens(text, lo, hi) == prefix + CharNgrams(text, hi);
    }
  }

  /** Appending the block of the next width keeps the earlier blocks. */
  lemma CharTokensPrefix(text: string, lo: int, hi: int, prefix: seq<string>, block: seq<string>)
    requires lo <= hi
    requires forall n {:trigger CharNgrams(text, n)} {:trigger NgramEnd(|text|, lo, n)} :: lo <= n < hi ==>
      NgramEnd(|text|, lo, n) <= |prefix| &&
      prefix[NgramOffset(|text|, lo, n)..NgramEnd(|text|, lo, n)] == CharNgrams(text, n)
    ensures forall n {:trigger CharNgrams(text, n)} {:trigger NgramEnd(|text|, lo, n)} :: lo <= n < hi ==>
      NgramEnd(|text|, lo, n) <= |prefix + block| &&
      (prefix + block)[NgramOffset(|text|, lo, n)..NgramEnd(|text|, lo, n)] == CharNgrams(text, n)
  {
    forall n | lo <= n < hi
      ensures NgramEnd(|text|, lo, n) <= |prefix + block|
      ensures (prefix + block)[NgramOffset(|text|, lo, n)..NgramEnd(|text|, lo, n)] == CharNgrams(text, n)
    {
      var blk := CharNgrams(text, n);
      assert blk == prefix[NgramOffset(|text|, lo, n)..NgramEnd(|text|, lo, n)];
    }
  }

  /** `s` occurs in `text` as a contiguous run. */
  predicate IsSubstring(s: string, text: string)
  {
    exists i, j :: 0 <= i <= j <= |text| && text[i..j] == s
  }

  /** The width whose block holds position `j` of the char-mode token list. */
  lemma {:induction false} TokenBlock(len: nat, lo: int, hi: int, j: nat) returns (n: int)
    requires j < NgramOffset(len, lo, hi + 1)
    ensures lo <= n <= hi
    ensures NgramOffset(len, lo, n) <= j < NgramEnd(len, lo, n)
    decreases hi - lo
  {
    if j >= NgramOffset(len, lo, hi) {
      n := hi;
    } else {
      n := TokenBlock(len, lo, hi - 1, j);
    }
  }

  /** With non-negative widths, every char-mode token has a width in
      `lo ..= hi` and is a piece of the text; conversely every piece of the
      text with such a width is a token. */
  lemma CharTokensShape(text: string, lo: int, hi: int)
    requires 0 <= lo
    ensures forall t :: t in CharTokens(text, lo, hi) ==> lo <= |t| <= hi && IsSubstring(t, text)
    ensures forall i, j :: 0 <= i <= j <= |text| && lo <= j - i <= hi ==> text[i..j] in CharTokens(text, lo, hi)
  {
    var r := CharTokens(text, lo, hi);
    forall t | t in r
      ensures lo <= |t| <= hi && IsSubstring(t, text)
    {
      var j :| 0 <= j < |r| && r[j] == t;
      TokenIsPiece(text, lo, hi, j);
    }
    forall i, j | 0 <= i <= j <= |text| && lo <= j - i <= hi
      ensures text[i..j] in r
    {
      PieceIsToken(text, lo, hi, i, j);
    }
  }

  /** The token at position `j` is a piece of the text of width `lo ..= hi`. */
  lemma TokenIsPiece(text: string, lo: int, hi: int, j: nat)
    requires 0 <= lo
    requires j < |CharTokens(text, lo, hi)|
    ensures var t := CharTokens(text, lo, hi)[j];
      lo <= |t| <= hi && IsSubstring(t, text)
  {
    var r := CharTokens(text, lo, hi);
    CharTokensBlocks(text, lo, hi);
    var n := TokenBlock(|text|, lo, hi, j);
    var block := CharNgrams(text, n);
    var off := NgramOffset(|text|, lo, n);
    assert r[off..NgramEnd(|text|, lo, n)] == block;
    var i := j - off;
    assert r[j] == block[i];
    assert text[i..i + n] == r[j];
  }

  /** The piece `text[i..j]` of width `lo ..= hi` is a token. */
  lemma PieceIsToken(text: string, lo: int, hi: int, i: nat, j: nat)
    requires 0 <= lo
    requires i <= j <= |text| && lo <= j - i <= hi
    ensures text[i..j] in CharTokens(text, lo, hi)
  {
    var r := CharTokens(text, lo, hi);
    CharTokensBlocks(text, lo, hi);
    var n := j - i;
    var block := CharNgrams(text, n);
    assert block[i] == text[i..j];
    var off := NgramOffset(|text|, lo, n);
    assert r[off..NgramEnd(|text|, lo, n)] == block;
    assert r[off + i] == block[i];
  }

  // ---------------------------------------------------------------------
  // Whitespace splitting
  // ---------------------------------------------------------------------

  /** The length of the leading whitespace run. */
  function SpaceLen(s: string): (k: nat)
    ensures k <= |s|
    ensures AllWhitespace(s[..k])
    ensures k == |s| || !IsWhitespace(s[k])
    decreases |s|
  {
    if s != [] && IsWhitespace(s[0]) then
      var k := 1 + SpaceLen(s[1..]);
      assert s[..k] == [s[0]] + s[1..][..k - 1];
      k
    else 0
  }

  /** The length of the leading non-whitespace run. */
  function WordLen(s: string): (k: nat)
    ensures k <= |s|
    ensures NoWhitespace(s[..k])
    ensures k == |s| || IsWhitespace(s[k])
    decreases |s|
  {
    if s != [] && !IsWhitespace(s[0]) then
      var k := 1 + WordLen(s[1..]);
      assert s[..k] == [s[0]] + s[1..][..k - 1];
      k
    else 0
  }

  /** `s.split()`: skip a whitespace run, take the following non-whitespace
      run as a word, and repeat until the text is used up. */
  function Split(s: string): seq<string>
    decreases |s|
  {
    var k := SpaceLen(s);
    if k == |s| then []
    else
      var n := WordLen(s[k..]);
      [s[k..][..n]] + Split(s[k..][n..])
  }

  /** The words of `str.split()` are non-empty and free of whitespace. */
  lemma {:induction false} SplitWords(s: string)
    ensures forall i :: 0 <= i < |Split(s)| ==> Split(s)[i] != [] && NoWhitespace(Split(s)[i])
    decreases |s|
  {
    var k := SpaceLen(s);
    if k < |s| {
      var rest := s[k..];
      var n := WordLen(rest);
      assert rest[0] == s[k];
      var tail := Split(rest[n..]);
      assert Split(s) == [rest[..n]] + tail;
      SplitWords(rest[n..]);
      forall i | 0 < i < |Split(s)|
        ensures Split(s)[i] != [] && NoWhitespace(Split(s)[i])
      {
        assert Split(s)[i] == tail[i - 1];
      }
    }
  }

  /** There are no words exactly when the text is all whitespace. */
  lemma SplitEmptyIffBlank(s: string)
    ensures Split(s) == [] <==> AllWhitespace(s)
  {
    var k := SpaceLen(s);
    if k == |s| {
      assert s[..k] == s;
    } else {
      assert !IsWhitespace(s[k]);
    }
  }

  /** `gaps[0] + words[0] + gaps[1] + ... + words[n-1] + gaps[n]`. */
  function Join(gaps: seq<string>, words: seq<string>): string
    requires |gaps| == |words| + 1
    decreases |words|
  {
    if words == [] then gaps[0] else gaps[0] + words[0] + Join(gaps[1..], words[1..])
  }

  /** `words` interleaved with `gaps` is a whitespace-separated text: the
      gaps are whitespace, the inner ones are not empty, and the words are
      non-empty and free of whitespace. */
  predicate Separates(gaps: seq<string>, words: seq<string>)
  {
    && |gaps| == |words| + 1
    && (forall i :: 0 <= i < |gaps| ==> AllWhitespace(gaps[i]))
    && (forall i :: 0 < i < |words| ==> gaps[i] != [])
    && (forall i :: 0 <= i < |words| ==> words[i] != [] && NoWhitespace(words[i]))
  }

  lemma {:induction false} SpaceLenAppend(a: string, b: string)
    requires AllWhitespace(a)
    requires b == [] || !IsWhitespace(b[0])
    ensures SpaceLen(a + b) == |a|
    decreases |a|
  {
    if a != [] {
      assert (a + b)[1..] == a[1..] + b;
      SpaceLenAppend(a[1..], b);
    } else {
      assert a + b == b;
    }
  }

  lemma {:induction false} WordLenAppend(a: string, b: string)
    requires NoWhitespace(a)
    requires b == [] || IsWhitespace(b[0])
    ensures WordLen(a + b) == |a|
    decreases |a|
  {
    if a != [] {
      assert (a + b)[1..] == a[1..] + b;
      WordLenAppend(a[1..], b);
    } else {
      assert a + b == b;
    }
  }

  /** One step of `Split`: leading whitespace, then a word that ends where
      whitespace or the text ends. */
  lemma SplitStep(gap: string, w: string, rest: string)
    requires AllWhitespace(gap)
    requires w != [] && NoWhitespace(w)
    requires rest == [] || IsWhitespace(rest[0])
    ensures Split(gap + (w + rest)) == [w] + Split(rest)
  {
    var s := gap + (w + rest);
    SpaceLenAppend(gap, w + rest);
    assert s[|gap|..] == w + rest;
    WordLenAppend(w, rest);
    assert (w + rest)[..|w|] == w;
    assert (w + rest)[|w|..] == rest;
  }

  /** After the first word, what remains of a joined text is empty or starts
      with whitespace. */
  lemma JoinTailStartsWithSpace(gaps: seq<string>, words: seq<string>)
    requires Separates(gaps, words) && words != []
    ensures var rest := Join(gaps[1..], words[1..]);
      rest == [] || IsWhitespace(rest[0])
  {
    var rest := Join(gaps[1..], words[1..]);
    if |words| > 1 {
      assert gaps[1] != [];
      assert rest == gaps[1] + words[1] + Join(gaps[2..], words[2..]);
      assert rest[0] == gaps[1][0];
    } else {
      assert rest == gaps[1];
    }
  }

  lemma SeparatesTail(gaps: seq<string>, words: seq<string>)
    requires Separates(gaps, words) && words != []
    ensures Separates(gaps[1..], words[1..])
    ensures AllWhitespace(gaps[0]) && words[0] != [] && NoWhitespace(words[0])
  {
  }

  /** Splitting a whitespace-separated text gives back exactly its words. */
  lemma {:induction false} SplitJoin(gaps: seq<string>, words: seq<string>)
    requires Separates(gaps, words)
    ensures Split(Join(gaps, words)) == words
    decreases |words|
  {
    if words != [] {
      var rest := Join(gaps[1..], words[1..]);
      SeparatesTail(gaps, words);
      JoinTailStartsWithSpace(gaps, words);
      var text := Join(gaps, words);
      assert text == gaps[0] + (words[0] + rest);
      SplitStep(gaps[0], words[0], rest);
      SplitJoin(gaps[1..], words[1..]);
      assert words == [words[0]] + words[1..];
    } else {
      assert Join(gaps, words) == gaps[0];
    }
  }

  /** The whitespace runs around the words of `s`: the run before the first
      word, the runs between words, and the run after the last word. */
  function Gaps(s: string): (g: seq<string>)
    ensures |g| == |Split(s)| + 1
    decreases |s|
  {
    var k := SpaceLen(s);
    if k == |s| then [s]
    else
      var n := WordLen(s[k..]);
      [s[..k]] + Gaps(s[k..][n..])
  }

  lemma JoinCons(g0: string, w0: string, gaps: seq<string>, words: seq<string>)
    requires |gaps| == |words| + 1
    ensures Join([g0] + gaps, [w0] + words) == g0 + w0 + Join(gaps, words)
  {
    assert ([g0] + gaps)[1..] == gaps;
    assert ([w0] + words)[1..] == words;
  }

  lemma SeparatesCons(g0: string, w0: string, gaps: seq<string>, words: seq<string>)
    requires Separates(gaps, words)
    requires AllWhitespace(g0) && w0 != [] && NoWhitespace(w0)
    requires words != [] ==> gaps[0] != []
    ensures Separates([g0] + gaps, [w0] + words)
  {
  }

  /** One step of `Split` and `Gaps` on a text that holds a word. */
  lemma SplitGapsStep(s: string) returns (k: nat, n: nat)
    requires SpaceLen(s) < |s|
    ensures k == SpaceLen(s) && 0 < n && k + n <= |s|
    ensures Split(s) == [s[k..k + n]] + Split(s[k + n..])
    ensures Gaps(s) == [s[..k]] + Gaps(s[k + n..])
    ensures AllWhitespace(s[..k]) && NoWhitespace(s[k..k + n])
    ensures k + n == |s| || IsWhitespace(s[k + n])
  {
    k := SpaceLen(s);
    n := WordLen(s[k..]);
    assert s[k..][..n] == s[k..k + n];
    assert s[k..][n..] == s[k + n..];
  }

  /** The first gap of a text that starts with whitespace is not empty. */
  lemma GapsHead(s: string)
    requires s != [] && IsWhitespace(s[0])
    ensures Gaps(s)[0] != []
  {
    if SpaceLen(s) < |s| {
      var k, n := SplitGapsStep(s);
    }
  }

  /** The gaps of a text are whitespace runs, non-empty between words. */
  lemma {:induction false} GapsSeparate(s: string)
    ensures Separates(Gaps(s), Split(s))
    decreases |s|
  {
    if SpaceLen(s) == |s| {
      assert s[..|s|] == s;
    } else {
      var k, n := SplitGapsStep(s);
      var rest := s[k + n..];
      GapsSeparate(rest);
      var g' := Gaps(rest);
      var w' := Split(rest);
      if w' != [] {
        assert rest != [] && rest[0] == s[k + n];
        GapsHead(rest);
      }
      SeparatesCons(s[..k], s[k..k + n], g', w');
    }
  }

  lemma ThreePieces(s: string, i: nat, j: nat)
    requires i <= j <= |s|
    ensures s[..i] + s[i..j] + s[j..] == s
  {
  }

  /** Every text is its words joined by its gaps. */
  lemma {:induction false} GapsJoin(s: string)
    ensures Join(Gaps(s), Split(s)) == s
    decreases |s|
  {
    if SpaceLen(s) == |s| {
      assert s[..|s|] == s;
    } else {
      var k, n := SplitGapsStep(s);
      var rest := s[k + n..];
      var lead, word := s[..k], s[k..k + n];
      GapsJoin(rest);
      JoinCons(lead, word, Gaps(rest), Split(rest));
      assert Join(Gaps(s), Split(s)) == lead + word + rest;
      ThreePieces(s, k, k + n);
    }
  }

  /** `Split(s)` is exactly the word list that, joined with whitespace gaps
      (non-empty between words), spells `s`. */
  lemma SplitCharacterised(s: string, words: seq<string>)
    ensures Split(s) == words <==> exists g :: Separates(g, words) && Join(g, words) == s
  {
    if Split(s) == words {
      GapsSeparate(s);
      GapsJoin(s);
      assert Separates(Gaps(s), words) && Join(Gaps(s), words) == s;
    }
    if exists g :: Separates(g, words) && Join(g, words) == s {
      var g :| Separates(g, words) && Join(g, words) == s;
      SplitJoin(g, words);
    }
  }
}
