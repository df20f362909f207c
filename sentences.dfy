/** `top_sentences`: rank sentences by the sum of the idfs of the query words
    they contain, break ties by query-term density, and return the best `n`. */
module SentenceRanker {
  import opened Collections
  import opened Ranking

  /** Every sentence of the dict has at least one token, as `main` ensures
      before building it. */
  predicate NonEmptyTokens<K>(sentences: seq<(K, seq<string>)>)
  {
    forall i :: 0 <= i < |sentences| ==> |sentences[i].1| > 0
  }

  /** `len([i for i in query if i in tokens])`: the query words occurring in
      the sentence. */
  function MatchCount(query: seq<string>, tokens: seq<string>): nat
  {
    if query == [] then 0
    else MatchCount(query[..|query| - 1], tokens) + (if query[|query| - 1] in tokens then 1 else 0)
  }

  /** Query-term density: matched query words per sentence token. */
  function Density(query: seq<string>, tokens: seq<string>): real
    requires |tokens| > 0
  {
    MatchCount(query, tokens) as real / |tokens| as real
  }

  /** The density of the sentence `k`, zero for a key that is not a sentence. */
  function DensityOf<K(==)>(query: seq<string>, sentences: seq<(K, seq<string>)>, k: K): real
  {
    if k in KeySet(sentences) && |Lookup(sentences, k)| > 0 then Density(query, Lookup(sentences, k)) else 0.0
  }

  /** What one query word adds to a sentence's score: its idf when the word
      has one and occurs in the sentence, nothing otherwise. */
  function IdfTerm(w: string, tokens: seq<string>, idfs: map<string, real>): real
  {
    if w in idfs && w in tokens then idfs[w] else 0.0
  }

  /** The idf sum of a sentence: the sum of `IdfTerm` over the query. */
  function IdfSum(query: seq<string>, tokens: seq<string>, idfs: map<string, real>): real
  {
    if query == [] then 0.0
    else IdfSum(query[..|query| - 1], tokens, idfs) + IdfTerm(query[|query| - 1], tokens, idfs)
  }

  /** The idf sum of the sentence `k`, zero for a key that is not a sentence. */
  function IdfSumOf<K(==)>(query: seq<string>, sentences: seq<(K, seq<string>)>, idfs: map<string, real>, k: K): real
  {
    if k in KeySet(sentences) then IdfSum(query, Lookup(sentences, k), idfs) else 0.0
  }

  function IsMatched(query: seq<string>, idfs: map<string, real>): seq<string> -> bool
  {
    tokens => IdfSum(query, tokens, idfs) > 0.0
  }

  /** The sentences with a strictly positive idf sum, in dict order. */
  function PositiveSentences<K>(query: seq<string>, sentences: seq<(K, seq<string>)>, idfs: map<string, real>): seq<K>
  {
    KeysWhere(sentences, IsMatched(query, idfs))
  }

  /** `query_word_idfs` once the inner loop has visited `sentences`: each
      sentence containing `w` mapped to the idf of `w`. */
  function WordIdfs<K>(sentences: seq<(K, seq<string>)>, w: string, idfs: map<string, real>): map<K, real>
  {
    if sentences == [] then map[]
    else if w in idfs && w in sentences[|sentences| - 1].1 then
      WordIdfs(sentences[..|sentences| - 1], w, idfs)[sentences[|sentences| - 1].0 := idfs[w]]
    else WordIdfs(sentences[..|sentences| - 1], w, idfs)
  }

  /** One step of the inner loop of `top_sentences`. */
  lemma WordIdfsSnoc<K>(sentences: seq<(K, seq<string>)>, w: string, idfs: map<string, real>, j: nat)
    requires j < |sentences|
    ensures WordIdfs(sentences[..j + 1], w, idfs) ==
      if w in idfs && w in sentences[j].1 then WordIdfs(sentences[..j], w, idfs)[sentences[j].0 := idfs[w]]
      else WordIdfs(sentences[..j], w, idfs)
  {
    var s := sentences[..j + 1];
    assert s[..|s| - 1] == sentences[..j];
    assert s[|s| - 1] == sentences[j];
  }

  /** With distinct sentences, the per-word dict holds exactly the sentences
      containing `w`, with the idf of `w`. */
  lemma {:induction false} WordIdfsAt<K>(sentences: seq<(K, seq<string>)>, w: string, idfs: map<string, real>, i: nat)
    requires DistinctKeys(sentences)
    requires i < |sentences|
    ensures Get(WordIdfs(sentences, w, idfs), sentences[i].0) == IdfTerm(w, sentences[i].1, idfs)
  {
    var init := sentences[..|sentences| - 1];
    if i < |init| {
      assert init[i] == sentences[i];
      assert sentences[i].0 != sentences[|sentences| - 1].0;
      assert DistinctKeys(init) by {
        forall a, b | 0 <= a < b < |init| ensures init[a].0 != init[b].0 {
          assert init[a] == sentences[a] && init[b] == sentences[b];
        }
      }
      WordIdfsAt(init, w, idfs, i);
    } else {
      WordIdfsMissing(init, w, idfs, sentences[i].0);
    }
  }

  /** A key of no sentence is not in the per-word dict. */
  lemma {:induction false} WordIdfsMissing<K>(sentences: seq<(K, seq<string>)>, w: string, idfs: map<string, real>, k: K)
    requires forall i :: 0 <= i < |sentences| ==> sentences[i].0 != k
    ensures k !in WordIdfs(sentences, w, idfs)
  {
    if sentences != [] {
      var init := sentences[..|sentences| - 1];
      assert forall i :: 0 <= i < |init| ==> init[i] == sentences[i];
      WordIdfsMissing(init, w, idfs, k);
    }
  }

  /** `idfs_ranked_sentences` once the outer loop has visited `query`: each
      query word that has an idf merges its per-sentence idfs in with
      `Counter` addition, which drops every sentence whose running sum is
      not strictly positive. */
  function RankedSentences<K>(query: seq<string>, sentences: seq<(K, seq<string>)>, idfs: map<string, real>): (acc: map<K, real>)
    ensures forall k :: k in acc ==> acc[k] > 0.0
  {
    if query == [] then map[]
    else
      var acc := RankedSentences(query[..|query| - 1], sentences, idfs);
      var w := query[|query| - 1];
      if w in idfs then AddCounters(acc, WordIdfs(sentences, w, idfs)) else acc
  }

  /** The items of the ranked dict, in dict order, each sorted by its idf sum
      and then its density. */
  function SentenceCandidates<K(==)>(query: seq<string>, sentences: seq<(K, seq<string>)>, idfs: map<string, real>): seq<Entry<K>>
  {
    var acc := RankedSentences(query, sentences, idfs);
    Candidates(sentences, acc, map k | k in acc :: DensityOf(query, sentences, k))
  }

  /** The result of `top_sentences`: the best `n` ranked sentences by
      `(idf sum, density)`. */
  function RankSentences<K(==)>(query: seq<string>, sentences: seq<(K, seq<string>)>, idfs: map<string, real>, n: nat): seq<K>
  {
    TopKeys(SentenceCandidates(query, sentences, idfs), n)
  }

  /** `top_sentences(query, sentences, idfs, n)`. `query` is the query set in
      its iteration order; `sentences` the dict from sentence to word list,
      whose lists `main` keeps non-empty, so the density never divides by
      zero. The density of every sentence is written in place, once for
      every query word that has an idf. */
  method TopSentences<K(==)>(query: seq<string>, sentences: seq<(K, seq<string>)>, idfs: map<string, real>, n: nat)
    returns (top: seq<K>)
    requires DistinctKeys(sentences)
    requires NonEmptyTokens(sentences)
    ensures top == RankSentences(query, sentences, idfs, n)
  {
    var ranked: map<K, real> := map[];
    var densities: map<K, real> := map[];
    var i := 0;
    while i < |query|
      invariant 0 <= i <= |query|
      invariant ranked == RankedSentences(query[..i], sentences, idfs)
      invariant ranked.Keys <= densities.Keys
      invariant forall k :: k in densities ==> densities[k] == DensityOf(query, sentences, k)
    {
      assert query[..i + 1][..i] == query[..i];
      var w := query[i];
      if w in idfs {
        var wordIdfs: map<K, real> := map[];
        var j := 0;
        while j < |sentences|
          invariant 0 <= j <= |sentences|
          invariant wordIdfs == WordIdfs(sentences[..j], w, idfs)
          invariant ranked.Keys <= densities.Keys && wordIdfs.Keys <= densities.Keys
          invariant forall k :: k in densities ==> densities[k] == DensityOf(query, sentences, k)
        {
          var (sentence, tokens) := sentences[j];
          var matched := MatchCount(query, tokens);
          LookupAt(sentences, j);
          densities := densities[sentence := matched as real / |tokens| as real];
          WordIdfsSnoc(sentences, w, idfs, j);
          if w in tokens {
            wordIdfs := wordIdfs[sentence := idfs[w]];
          }
          j := j + 1;
        }
        assert sentences[..j] == sentences;
        ranked := AddCounters(ranked, wordIdfs);
      }
      i := i + 1;
    }
    assert query[..i] == query;
    CandidatesTieAgree(sentences, ranked, densities, map k | k in ranked :: DensityOf(query, sentences, k));
    top := TopKeys(Candidates(sentences, ranked, densities), n);
  }

  /** With non-negative idfs no idf sum is negative. */
  lemma {:induction false} IdfSumNonNegative(query: seq<string>, tokens: seq<string>, idfs: map<string, real>)
    requires NonNegative(idfs)
    ensures IdfSum(query, tokens, idfs) >= 0.0
  {
    if query != [] {
      IdfSumNonNegative(query[..|query| - 1], tokens, idfs);
    }
  }

  /** The running `Counter` is the reference idf sum: with distinct
      sentences and non-negative idfs, every sentence's entry (zero when
      absent) is its `IdfSum`. */
  lemma {:induction false} RankedSentencesIsSum<K>(query: seq<string>, sentences: seq<(K, seq<string>)>, idfs: map<string, real>)
    requires DistinctKeys(sentences)
    requires NonNegative(idfs)
    ensures forall i :: 0 <= i < |sentences| ==>
      Get(RankedSentences(query, sentences, idfs), sentences[i].0) == IdfSum(query, sentences[i].1, idfs)
  {
    if query != [] {
      var init := query[..|query| - 1];
      var w := query[|query| - 1];
      RankedSentencesIsSum(init, sentences, idfs);
      if w in idfs {
        var acc := RankedSentences(init, sentences, idfs);
        var wi := WordIdfs(sentences, w, idfs);
        forall i | 0 <= i < |sentences|
          ensures Get(AddCounters(acc, wi), sentences[i].0) == IdfSum(query, sentences[i].1, idfs)
        {
          WordIdfsAt(sentences, w, idfs, i);
          IdfSumNonNegative(query, sentences[i].1, idfs);
          GetAddCounters(acc, wi, sentences[i].0);
        }
      }
    }
  }

  /** Only sentences are ever ranked. */
  lemma {:induction false} RankedSentencesKeys<K>(query: seq<string>, sentences: seq<(K, seq<string>)>, idfs: map<string, real>)
    ensures RankedSentences(query, sentences, idfs).Keys <= KeySet(sentences)
  {
    if query != [] {
      RankedSentencesKeys(query[..|query| - 1], sentences, idfs);
      var w := query[|query| - 1];
      if w in idfs {
        forall k | k in WordIdfs(sentences, w, idfs) ensures k in KeySet(sentences) {
          if k !in KeySet(sentences) {
            WordIdfsMissing(sentences, w, idfs, k);
          }
        }
      }
    }
  }

  /** A sentence is ranked exactly when its idf sum is positive, and then
      with that sum. */
  lemma RankedSentencesScoreOf<K>(query: seq<string>, sentences: seq<(K, seq<string>)>, idfs: map<string, real>)
    requires DistinctKeys(sentences)
    requires NonNegative(idfs)
    ensures forall i :: 0 <= i < |sentences| ==>
      (sentences[i].0 in RankedSentences(query, sentences, idfs) <==> IsMatched(query, idfs)(sentences[i].1))
    ensures forall k :: k in RankedSentences(query, sentences, idfs) ==>
      RankedSentences(query, sentences, idfs)[k] == IdfSumOf(query, sentences, idfs, k)
  {
    var acc := RankedSentences(query, sentences, idfs);
    RankedSentencesKeys(query, sentences, idfs);
    RankedSentencesIsSum(query, sentences, idfs);
    forall i | 0 <= i < |sentences| ensures sentences[i].0 in acc <==> IsMatched(query, idfs)(sentences[i].1) {
      IdfSumNonNegative(query, sentences[i].1, idfs);
    }
    forall k | k in acc ensures acc[k] == IdfSumOf(query, sentences, idfs, k) {
      var i :| 0 <= i < |sentences| && sentences[i].0 == k;
      LookupAt(sentences, i);
    }
  }

  /** The candidates of the final sort are the matched sentences, in dict
      order, none twice, each ranked by its idf sum and then its density. */
  lemma SentenceCandidatesScored<K>(query: seq<string>, sentences: seq<(K, seq<string>)>, idfs: map<string, real>)
    requires DistinctKeys(sentences)
    requires NonNegative(idfs)
    ensures KeysOf(SentenceCandidates(query, sentences, idfs)) == PositiveSentences(query, sentences, idfs)
    ensures NoDupKeys(SentenceCandidates(query, sentences, idfs))
    ensures forall e :: e in SentenceCandidates(query, sentences, idfs) ==>
      e.key in KeySet(sentences) && e.rank == Rank(IdfSumOf(query, sentences, idfs, e.key), DensityOf(query, sentences, e.key)) &&
      e.rank.score > 0.0
  {
    var acc := RankedSentences(query, sentences, idfs);
    RankedSentencesScoreOf(query, sentences, idfs);
    CandidateKeys(sentences, acc, map k | k in acc :: DensityOf(query, sentences, k), IsMatched(query, idfs));
  }

  /** Whatever the inputs, `top_sentences` returns at most `n` keys, each a
      sentence. */
  lemma TopSentencesAtMost<K>(query: seq<string>, sentences: seq<(K, seq<string>)>, idfs: map<string, real>, n: nat)
    ensures |RankSentences(query, sentences, idfs, n)| <= n
    ensures forall k :: k in RankSentences(query, sentences, idfs, n) ==> k in KeySet(sentences)
  {
    var c := SentenceCandidates(query, sentences, idfs);
    var r := Take(SortDesc(c), n);
    var top := KeysOf(r);
    TopSelection(c, n);
    forall k | k in top ensures k in KeySet(sentences) {
      var i :| 0 <= i < |top| && top[i] == k;
      assert r[i] in c;
    }
  }

  /** What `top_sentences` returns, with distinct sentences and non-negative
      idfs (as `compute_idfs` produces): min(n, #matched sentences)
      sentences, none twice, each with a strictly positive idf sum. */
  lemma TopSentencesChosen<K>(query: seq<string>, sentences: seq<(K, seq<string>)>, idfs: map<string, real>, n: nat)
    requires DistinctKeys(sentences)
    requires NonNegative(idfs)
    ensures |RankSentences(query, sentences, idfs, n)| == Min(n, |PositiveSentences(query, sentences, idfs)|)
    ensures forall k :: k in RankSentences(query, sentences, idfs, n) ==>
      k in KeySet(sentences) && IdfSumOf(query, sentences, idfs, k) > 0.0
    ensures forall i, j :: 0 <= i < j < |RankSentences(query, sentences, idfs, n)| ==>
      RankSentences(query, sentences, idfs, n)[i] != RankSentences(query, sentences, idfs, n)[j]
  {
    var c := SentenceCandidates(query, sentences, idfs);
    var r := Take(SortDesc(c), n);
    var top := KeysOf(r);
    SentenceCandidatesScored(query, sentences, idfs);
    TopSelection(c, n);
    forall k | k in top ensures k in KeySet(sentences) && IdfSumOf(query, sentences, idfs, k) > 0.0 {
      var i :| 0 <= i < |top| && top[i] == k;
      assert r[i] in c;
    }
  }

  /** The sentences come in non-increasing `(idf sum, density)` order: a
      higher idf sum first, and between equal idf sums the higher density. */
  lemma TopSentencesOrdered<K>(query: seq<string>, sentences: seq<(K, seq<string>)>, idfs: map<string, real>, n: nat)
    requires DistinctKeys(sentences)
    requires NonNegative(idfs)
    ensures forall i, j :: 0 <= i < j < |RankSentences(query, sentences, idfs, n)| ==>
      var a, b := RankSentences(query, sentences, idfs, n)[i], RankSentences(query, sentences, idfs, n)[j];
      IdfSumOf(query, sentences, idfs, a) >= IdfSumOf(query, sentences, idfs, b) &&
      (IdfSumOf(query, sentences, idfs, a) == IdfSumOf(query, sentences, idfs, b) ==>
         DensityOf(query, sentences, a) >= DensityOf(query, sentences, b))
  {
    var c := SentenceCandidates(query, sentences, idfs);
    var r := Take(SortDesc(c), n);
    var top := KeysOf(r);
    SentenceCandidatesScored(query, sentences, idfs);
    TopSelection(c, n);
    forall i, j | 0 <= i < j < |top|
      ensures IdfSumOf(query, sentences, idfs, top[i]) >= IdfSumOf(query, sentences, idfs, top[j]) &&
        (IdfSumOf(query, sentences, idfs, top[i]) == IdfSumOf(query, sentences, idfs, top[j]) ==>
           DensityOf(query, sentences, top[i]) >= DensityOf(query, sentences, top[j]))
    {
      assert r[i] in c && r[j] in c;
      assert AtLeast(r[i].rank, r[j].rank);
    }
  }

  /** Between two returned sentences with equal idf sums, the one with the
      strictly higher density comes first. */
  lemma TopSentencesDensityFirst<K>(query: seq<string>, sentences: seq<(K, seq<string>)>, idfs: map<string, real>, n: nat)
    requires DistinctKeys(sentences)
    requires NonNegative(idfs)
    ensures forall i, j ::
      0 <= i < |RankSentences(query, sentences, idfs, n)| && 0 <= j < |RankSentences(query, sentences, idfs, n)| &&
      IdfSumOf(query, sentences, idfs, RankSentences(query, sentences, idfs, n)[i]) ==
        IdfSumOf(query, sentences, idfs, RankSentences(query, sentences, idfs, n)[j]) &&
      DensityOf(query, sentences, RankSentences(query, sentences, idfs, n)[i]) >
        DensityOf(query, sentences, RankSentences(query, sentences, idfs, n)[j])
      ==> i < j
  {
    TopSentencesOrdered(query, sentences, idfs, n);
  }

  /** No matched sentence left out ranks above a sentence returned, by
      `(idf sum, density)`. */
  lemma TopSentencesNoneBetter<K>(query: seq<string>, sentences: seq<(K, seq<string>)>, idfs: map<string, real>, n: nat)
    requires DistinctKeys(sentences)
    requires NonNegative(idfs)
    ensures forall k, i ::
      k in PositiveSentences(query, sentences, idfs) && k !in RankSentences(query, sentences, idfs, n) && 0 <= i < |RankSentences(query, sentences, idfs, n)|
      ==> AtLeast(Rank(IdfSumOf(query, sentences, idfs, RankSentences(query, sentences, idfs, n)[i]),
                       DensityOf(query, sentences, RankSentences(query, sentences, idfs, n)[i])),
                  Rank(IdfSumOf(query, sentences, idfs, k), DensityOf(query, sentences, k)))
  {
    var c := SentenceCandidates(query, sentences, idfs);
    var r := Take(SortDesc(c), n);
    var top := KeysOf(r);
    SentenceCandidatesScored(query, sentences, idfs);
    TopSelection(c, n);
    forall k, i | k in PositiveSentences(query, sentences, idfs) && k !in top && 0 <= i < |top|
      ensures AtLeast(Rank(IdfSumOf(query, sentences, idfs, top[i]), DensityOf(query, sentences, top[i])),
                      Rank(IdfSumOf(query, sentences, idfs, k), DensityOf(query, sentences, k)))
    {
      var a :| 0 <= a < |c| && KeysOf(c)[a] == k;
      assert c[a] !in r;
      assert r[i] in c;
      TopSelectionLeavesNoBetter(c, n, c[a], r[i]);
    }
  }

  /** A positive idf sum needs a query word that has an idf and occurs in
      the sentence. */
  lemma {:induction false} IdfSumPositive(query: seq<string>, tokens: seq<string>, idfs: map<string, real>)
    requires IdfSum(query, tokens, idfs) > 0.0
    ensures exists w :: w in query && w in idfs && w in tokens
  {
    var init := query[..|query| - 1];
    var last := query[|query| - 1];
    if IdfSum(init, tokens, idfs) > 0.0 {
      IdfSumPositive(init, tokens, idfs);
      var w :| w in init && w in idfs && w in tokens;
      assert w in query;
    } else {
      assert last in idfs && last in tokens;
    }
  }

  /** A query none of whose words has a positive idf and occurs in some
      sentence ranks no sentence: `top_sentences` returns []. */
  lemma {:induction false} NoMatchNoSentences<K>(query: seq<string>, sentences: seq<(K, seq<string>)>, idfs: map<string, real>, n: nat)
    requires forall w, i :: w in query && w in idfs && 0 <= i < |sentences| && w in sentences[i].1 ==> idfs[w] == 0.0
    ensures RankedSentences(query, sentences, idfs) == map[]
    ensures RankSentences(query, sentences, idfs, n) == []
  {
    if query != [] {
      var init := query[..|query| - 1];
      var w := query[|query| - 1];
      NoMatchNoSentences(init, sentences, idfs, n);
      if w in idfs {
        var wi := WordIdfs(sentences, w, idfs);
        forall k | k in wi ensures wi[k] == 0.0 {
          WordIdfsValue(sentences, w, idfs, k);
        }
        assert AddCounters(map[], wi) == map[];
      }
    }
  }

  /** Every entry of the per-word dict is the idf of `w`, for a sentence
      containing `w`. */
  lemma {:induction false} WordIdfsValue<K>(sentences: seq<(K, seq<string>)>, w: string, idfs: map<string, real>, k: K)
    requires k in WordIdfs(sentences, w, idfs)
    ensures w in idfs && WordIdfs(sentences, w, idfs)[k] == idfs[w]
    ensures exists i :: 0 <= i < |sentences| && sentences[i].0 == k && w in sentences[i].1
  {
    var init := sentences[..|sentences| - 1];
    var last := sentences[|sentences| - 1];
    if k in WordIdfs(init, w, idfs) && !(k == last.0 && w in idfs && w in last.1) {
      WordIdfsValue(init, w, idfs, k);
      var i :| 0 <= i < |init| && init[i].0 == k && w in init[i].1;
      assert sentences[i] == init[i];
    }
  }

  /** With a query of distinct words (the query is a set), the density of a
      non-empty sentence lies in [0, 1], and is positive exactly when some
      query word occurs in the sentence. */
  lemma DensityRange(query: seq<string>, tokens: seq<string>)
    requires forall a, b :: 0 <= a < b < |query| ==> query[a] != query[b]
    requires |tokens| > 0
    ensures 0.0 <= Density(query, tokens) <= 1.0
    ensures Density(query, tokens) > 0.0 <==> exists w :: w in query && w in tokens
  {
    MatchCountBound(query, tokens);
    UnitRatio(MatchCount(query, tokens), |tokens|);
  }

  /** With distinct query words, at most every token is matched, and some
      is exactly when a query word occurs in the sentence. */
  lemma MatchCountBound(query: seq<string>, tokens: seq<string>)
    requires forall a, b :: 0 <= a < b < |query| ==> query[a] != query[b]
    ensures MatchCount(query, tokens) <= |tokens|
    ensures MatchCount(query, tokens) > 0 <==> exists w :: w in query && w in tokens
  {
    MatchCountIsCard(query, tokens);
    var matched := set w | w in query && w in tokens;
    assert matched <= Elements(tokens);
    ElementsCard(tokens);
    SubsetCard(matched, Elements(tokens));
    if exists w :: w in query && w in tokens {
      var w :| w in query && w in tokens;
      assert w in matched;
    } else {
      assert matched == {};
    }
  }

  /** `x / t` for `0 <= x <= t` and `t > 0` lies in [0, 1] and is positive
      exactly when `x` is. */
  lemma UnitRatio(x: nat, t: nat)
    requires 0 < t && x <= t
    ensures 0.0 <= x as real / t as real <= 1.0
    ensures x as real / t as real > 0.0 <==> x > 0
  {
    var r := x as real / t as real;
    assert r * (t as real) == x as real;
  }

  /** With distinct query words, `MatchCount` is the number of distinct query
      words occurring in the sentence. */
  lemma {:induction false} MatchCountIsCard(query: seq<string>, tokens: seq<string>)
    requires forall a, b :: 0 <= a < b < |query| ==> query[a] != query[b]
    ensures MatchCount(query, tokens) == |set w | w in query && w in tokens|
  {
    if query != [] {
      var init := query[..|query| - 1];
      var last := query[|query| - 1];
      MatchCountIsCard(init, tokens);
      var s := set w | w in init && w in tokens;
      assert last !in init;
      if last in tokens {
        assert (set w | w in query && w in tokens) == s + {last};
      } else {
        assert (set w | w in query && w in tokens) == s;
      }
    }
  }
}
