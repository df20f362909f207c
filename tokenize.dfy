/** The filtering step of `tokenize`: from the lower-cased, word-segmented
    document, drop every punctuation token and every stop word. */
module Tokenizer {
  import opened Collections

  /** Python's `string.punctuation`: the 32 ASCII punctuation characters, in order. */
  const Punctuation: string := "!\"#$%&'()*+,-./:;<=>?@[\\]^_`{|}~"

  /** A token survives the filter when it is not a substring of the
      punctuation string (a substring test on strings, so the empty token and
      blocks such as "()" are dropped too) and is not a stop word. */
  predicate Kept(word: string, punctuation: string, stopWords: set<string>)
  {
    !Occurs(word, punctuation) && word !in stopWords
  }

  /** The list comprehension: the kept tokens, in order, duplicates retained.
      The result is the subsequence of `tokens` holding every occurrence of
      every kept token and nothing else. */
  function FilterTokens(tokens: seq<string>, punctuation: string, stopWords: set<string>): (r: seq<string>)
    ensures IsSubsequence(r, tokens)
    ensures forall w :: w in r ==> Kept(w, punctuation, stopWords)
    ensures forall w :: Kept(w, punctuation, stopWords) ==> multiset(r)[w] == multiset(tokens)[w]
  {
    if tokens == [] then []
    else
      assert tokens == [tokens[0]] + tokens[1..];
      if Kept(tokens[0], punctuation, stopWords) then [tokens[0]] + FilterTokens(tokens[1..], punctuation, stopWords)
      else FilterTokens(tokens[1..], punctuation, stopWords)
  }

  /** `tokenize(document)`: `segment` stands for `nltk.word_tokenize(document.lower())`,
      a foreign call, and `stopWords` for NLTK's English stop-word list. */
  function Tokenize(document: string, segment: string -> seq<string>, stopWords: set<string>): (r: seq<string>)
    ensures IsSubsequence(r, segment(document))
    ensures forall w :: w in r ==> Kept(w, Punctuation, stopWords)
  {
    FilterTokens(segment(document), Punctuation, stopWords)
  }

  /** Filtering an already filtered list changes nothing. */
  lemma {:induction false} FilterIdempotent(tokens: seq<string>, punctuation: string, stopWords: set<string>)
    ensures FilterTokens(FilterTokens(tokens, punctuation, stopWords), punctuation, stopWords) == FilterTokens(tokens, punctuation, stopWords)
  {
    if tokens != [] {
      FilterIdempotent(tokens[1..], punctuation, stopWords);
    }
  }

  /** Any subsequence of the tokens that keeps exactly the occurrences of the
      kept tokens is the filter's output: the contract of `FilterTokens`
      determines its result. */
  lemma {:induction false} FilterUnique(tokens: seq<string>, punctuation: string, stopWords: set<string>, r: seq<string>)
    requires IsSubsequence(r, tokens)
    requires forall w :: w in r ==> Kept(w, punctuation, stopWords)
    requires forall w :: Kept(w, punctuation, stopWords) ==> multiset(r)[w] == multiset(tokens)[w]
    ensures r == FilterTokens(tokens, punctuation, stopWords)
    decreases |tokens|
  {
    if tokens == [] {
      assert r == [];
    } else {
      var t := tokens[0];
      assert tokens == [t] + tokens[1..];
      if r != [] && r[0] == t && IsSubsequence(r[1..], tokens[1..]) {
        assert r == [t] + r[1..];
        assert Kept(t, punctuation, stopWords);
        FilterUnique(tokens[1..], punctuation, stopWords, r[1..]);
      } else {
        // r skips the first token, so it is a subsequence of the rest
        assert IsSubsequence(r, tokens[1..]);
        SubsequenceCount(r, tokens[1..], t);
        if Kept(t, punctuation, stopWords) {
          assert false;
        }
        FilterUnique(tokens[1..], punctuation, stopWords, r);
      }
    }
  }

  /** A subsequence has at most as many occurrences of each element. */
  lemma {:induction false} SubsequenceCount(a: seq<string>, b: seq<string>, x: string)
    requires IsSubsequence(a, b)
    ensures multiset(a)[x] <= multiset(b)[x]
    decreases |b|
  {
    if a != [] {
      assert b == [b[0]] + b[1..];
      if a[0] == b[0] && IsSubsequence(a[1..], b[1..]) {
        assert a == [a[0]] + a[1..];
        SubsequenceCount(a[1..], b[1..], x);
      } else {
        SubsequenceCount(a, b[1..], x);
      }
    }
  }

  /** Every block of the punctuation string is dropped, whatever the stop
      words: the empty token, a single mark such as "?", and runs of adjacent
      marks such as "()" alike. */
  lemma PunctuationBlockDropped(punctuation: string, stopWords: set<string>, i: nat, j: nat)
    requires i <= j <= |punctuation|
    ensures !Kept(punctuation[i..j], punctuation, stopWords)
  {
    OccursIff(punctuation[i..j], punctuation);
    assert OccursAt(punctuation[i..j], punctuation, i);
  }
}
