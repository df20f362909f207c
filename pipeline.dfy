/** The part of `main` between the two rankings: the sentence dict built from
    the best files, keeping only sentences whose token list is non-empty,
    and the chain of calls that answers a query. */
module Pipeline {
  import opened Collections
  import opened Tokenizer
  import opened Idf
  import opened Ranking
  import opened DocumentRanker
  import opened SentenceRanker

  /** `FILE_MATCHES` and `SENTENCE_MATCHES`. */
  const FileMatches: nat := 1
  const SentenceMatches: nat := 1

  /** `file_words`: every file name with the token list of its contents. */
  function FileWords<K>(files: seq<(K, string)>, segment: string -> seq<string>, stopWords: set<string>): (r: seq<(K, seq<string>)>)
    ensures |r| == |files|
    ensures forall i :: 0 <= i < |r| ==> r[i].0 == files[i].0 && r[i].1 == Tokenize(files[i].1, segment, stopWords)
  {
    seq(|files|, i requires 0 <= i < |files| => (files[i].0, Tokenize(files[i].1, segment, stopWords)))
  }

  /** The sentence loop of `main`. `candidates` are the sentences of the best
      files in order (the result of splitting each file into passages and
      each passage into sentences, foreign calls). A sentence is stored only
      when its token list is non-empty; storing a sentence again writes the
      same token list under a key already present, which changes nothing. */
  method BuildSentences(candidates: seq<string>, segment: string -> seq<string>, stopWords: set<string>)
    returns (sentences: seq<(string, seq<string>)>)
    ensures DistinctKeys(sentences)
    ensures NonEmptyTokens(sentences)
    ensures forall i :: 0 <= i < |sentences| ==> sentences[i].1 == Tokenize(sentences[i].0, segment, stopWords)
    ensures forall s :: s in KeySet(sentences) <==> s in candidates && Tokenize(s, segment, stopWords) != []
  {
    sentences := [];
    var i := 0;
    while i < |candidates|
      invariant 0 <= i <= |candidates|
      invariant DistinctKeys(sentences)
      invariant NonEmptyTokens(sentences)
      invariant forall a :: 0 <= a < |sentences| ==> sentences[a].1 == Tokenize(sentences[a].0, segment, stopWords)
      invariant forall s :: s in KeySet(sentences) <==> s in candidates[..i] && Tokenize(s, segment, stopWords) != []
    {
      var sentence := candidates[i];
      var tokens := Tokenize(sentence, segment, stopWords);
      assert candidates[..i + 1] == candidates[..i] + [sentence];
      if tokens != [] && sentence !in KeySet(sentences) {
        KeySetSnoc(sentences + [(sentence, tokens)]);
        assert (sentences + [(sentence, tokens)])[..|sentences|] == sentences;
        sentences := sentences + [(sentence, tokens)];
      }
      i := i + 1;
    }
    assert candidates[..i] == candidates;
  }

  /** The sentences of the files named `names`, in order. */
  function SentencesOf<K(==)>(files: seq<(K, string)>, names: seq<K>, split: string -> seq<string>): seq<string>
    requires forall k :: k in names ==> k in KeySet(files)
  {
    if names == [] then []
    else SentencesOf(files, names[..|names| - 1], split) + split(Lookup(files, names[|names| - 1]))
  }

  /** Every sentence gathered comes from one of the named files. */
  lemma {:induction false} SentencesOfFrom<K>(files: seq<(K, string)>, names: seq<K>, split: string -> seq<string>, s: string)
    requires forall k :: k in names ==> k in KeySet(files)
    requires s in SentencesOf(files, names, split)
    ensures exists k :: k in names && s in split(Lookup(files, k))
  {
    var init := names[..|names| - 1];
    var last := names[|names| - 1];
    if s !in split(Lookup(files, last)) {
      SentencesOfFrom(files, init, split, s);
      var k :| k in init && s in split(Lookup(files, k));
      assert k in names;
    }
  }

  /** The token lists are keyed by the same file names. */
  lemma FileWordsKeys<K>(files: seq<(K, string)>, segment: string -> seq<string>, stopWords: set<string>)
    ensures KeySet(FileWords(files, segment, stopWords)) == KeySet(files)
  {
    var fileWords := FileWords(files, segment, stopWords);
    forall k | k in KeySet(files) ensures k in KeySet(fileWords) {
      var i :| 0 <= i < |files| && files[i].0 == k;
      assert fileWords[i].0 == k;
    }
  }

  /** With non-negative idfs every sentence `top_sentences` returns is a
      key of the dict and holds a query word that has an idf. */
  lemma MatchSharesQueryWord<K>(query: seq<string>, sentences: seq<(K, seq<string>)>, idfs: map<string, real>, n: nat)
    requires DistinctKeys(sentences)
    requires NonNegative(idfs)
    ensures forall m :: m in RankSentences(query, sentences, idfs, n) ==>
      m in KeySet(sentences) && exists w :: w in query && w in idfs && w in Lookup(sentences, m)
  {
    TopSentencesChosen(query, sentences, idfs, n);
    forall m | m in RankSentences(query, sentences, idfs, n)
      ensures m in KeySet(sentences) && exists w :: w in query && w in idfs && w in Lookup(sentences, m)
    {
      IdfSumPositive(query, Lookup(sentences, m), idfs);
    }
  }

  /** `main` from the file dict to the answer: tokenize the files, compute
      their idfs, keep the best `FILE_MATCHES` files, gather and tokenize
      their sentences, compute the sentences' idfs and keep the best
      `SENTENCE_MATCHES` sentences; `names` are the files `top_files`
      returned. `split` stands for splitting a file into
      passages and each passage into sentences. Every sentence handed to
      `top_sentences` has a token, so no density divides by zero; with a
      natural logarithm each answer is a sentence of a returned file that
      shares a word with the query. */
  method Answer<K(==)>(files: seq<(K, string)>, query: seq<string>, split: string -> seq<string>,
                       segment: string -> seq<string>, stopWords: set<string>, ln: real -> real)
    returns (names: seq<K>, matches: seq<string>)
    ensures |names| <= FileMatches && forall k :: k in names ==> k in KeySet(files)
    ensures |matches| <= SentenceMatches
    ensures IsNaturalLog(ln) ==> forall m :: m in matches ==>
      (exists k :: k in names && m in split(Lookup(files, k))) &&
      exists w :: w in query && w in Tokenize(m, segment, stopWords)
  {
    var fileWords := FileWords(files, segment, stopWords);
    var fileIdfs := ComputeIdfs(fileWords, ln);
    names := TopFiles(query, fileWords, fileIdfs, FileMatches);
    FileWordsKeys(files, segment, stopWords);
    TopFilesAreFiles(query, fileWords, fileIdfs, FileMatches);
    var candidates := SentencesOf(files, names, split);
    var sentences := BuildSentences(candidates, segment, stopWords);
    var idfs := ComputeIdfs(sentences, ln);
    matches := TopSentences(query, sentences, idfs, SentenceMatches);
    TopSentencesAtMost(query, sentences, idfs, SentenceMatches);
    if IsNaturalLog(ln) {
      IdfsNonNegative(sentences, ln, idfs);
      MatchSharesQueryWord(query, sentences, idfs, SentenceMatches);
      forall m | m in matches
        ensures (exists k :: k in names && m in split(Lookup(files, k))) &&
          exists w :: w in query && w in Tokenize(m, segment, stopWords)
      {
        var a :| 0 <= a < |sentences| && sentences[a].0 == m;
        LookupAt(sentences, a);
        SentencesOfFrom(files, names, split, m);
      }
    }
  }
}
