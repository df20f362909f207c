/** `top_files`: rank files by the sum, over the query words, of the word's
    count in the file times its idf, and return the names of the best `n`. */
module DocumentRanker {
  import opened Collections
  import opened Ranking

  /** What one query word adds to a file's score: count times idf, or
      nothing when the word has no idf. */
  function TermScore(w: string, tokens: seq<string>, idfs: map<string, real>): real
  {
    if w in idfs then (multiset(tokens)[w] as real) * idfs[w] else 0.0
  }

  /** The tf-idf score of a file: the sum of `TermScore` over the query. */
  function FileScore(query: seq<string>, tokens: seq<string>, idfs: map<string, real>): real
  {
    if query == [] then 0.0
    else FileScore(query[..|query| - 1], tokens, idfs) + TermScore(query[|query| - 1], tokens, idfs)
  }

  /** The score of the file named `k`, zero for a name that is not a file. */
  function FileScoreOf<K(==)>(query: seq<string>, files: seq<(K, seq<string>)>, idfs: map<string, real>, k: K): real
  {
    if k in KeySet(files) then FileScore(query, Lookup(files, k), idfs) else 0.0
  }

  function IsPositive(query: seq<string>, idfs: map<string, real>): seq<string> -> bool
  {
    tokens => FileScore(query, tokens, idfs) > 0.0
  }

  /** The names of the files with a strictly positive score, in file order. */
  function PositiveFiles<K>(query: seq<string>, files: seq<(K, seq<string>)>, idfs: map<string, real>): seq<K>
  {
    KeysWhere(files, IsPositive(query, idfs))
  }

  /** `query_word_tfidfs` once the inner loop has visited `files`: every file
      name mapped to its `TermScore` for `w` (count times idf). */
  function WordTfidfs<K>(files: seq<(K, seq<string>)>, w: string, idfs: map<string, real>): map<K, real>
  {
    if files == [] then map[]
    else
      WordTfidfs(files[..|files| - 1], w, idfs)[files[|files| - 1].0 := TermScore(w, files[|files| - 1].1, idfs)]
  }

  /** One step of the inner loop of `top_files`. */
  lemma WordTfidfsSnoc<K>(files: seq<(K, seq<string>)>, w: string, idfs: map<string, real>, j: nat)
    requires j < |files|
    ensures WordTfidfs(files[..j + 1], w, idfs) == WordTfidfs(files[..j], w, idfs)[files[j].0 := TermScore(w, files[j].1, idfs)]
  {
    var s := files[..j + 1];
    assert s[..|s| - 1] == files[..j];
    assert s[|s| - 1] == files[j];
  }

  /** The per-word dict has exactly the file names as keys. */
  lemma {:induction false} WordTfidfsKeys<K>(files: seq<(K, seq<string>)>, w: string, idfs: map<string, real>)
    ensures WordTfidfs(files, w, idfs).Keys == KeySet(files)
  {
    if files != [] {
      KeySetSnoc(files);
      WordTfidfsKeys(files[..|files| - 1], w, idfs);
    }
  }

  /** `idfs_ranked_documents` once the outer loop has visited `query`: each
      query word that has an idf merges its per-file scores in with
      `Counter` addition, which drops every file whose running sum is not
      strictly positive. */
  function Ranked<K>(query: seq<string>, files: seq<(K, seq<string>)>, idfs: map<string, real>): (acc: map<K, real>)
    ensures forall k :: k in acc ==> acc[k] > 0.0
  {
    if query == [] then map[]
    else
      var acc := Ranked(query[..|query| - 1], files, idfs);
      var w := query[|query| - 1];
      if w in idfs then AddCounters(acc, WordTfidfs(files, w, idfs)) else acc
  }

  /** Only file names are ever ranked. */
  lemma {:induction false} RankedKeys<K>(query: seq<string>, files: seq<(K, seq<string>)>, idfs: map<string, real>)
    ensures Ranked(query, files, idfs).Keys <= KeySet(files)
  {
    if query != [] {
      RankedKeys(query[..|query| - 1], files, idfs);
      var w := query[|query| - 1];
      if w in idfs {
        WordTfidfsKeys(files, w, idfs);
      }
    }
  }

  /** The result of `top_files`: the names of the best `n` of the ranked
      files, sorted by score alone. */
  function RankFiles<K(==)>(query: seq<string>, files: seq<(K, seq<string>)>, idfs: map<string, real>, n: nat): seq<K>
  {
    TopKeys(FileCandidates(query, files, idfs), n)
  }

  /** The items of the ranked dict, in file order, each sorted by its score
      alone (the second component of the sort key is 0). */
  function FileCandidates<K(==)>(query: seq<string>, files: seq<(K, seq<string>)>, idfs: map<string, real>): seq<Entry<K>>
  {
    var acc := Ranked(query, files, idfs);
    Candidates(files, acc, map k | k in acc :: 0.0)
  }

  /** `top_files(query, files, idfs, n)`. `query` is the query set in its
      iteration order; `files` the dict from file name to word list. */
  method TopFiles<K(==)>(query: seq<string>, files: seq<(K, seq<string>)>, idfs: map<string, real>, n: nat)
    returns (top: seq<K>)
    ensures top == RankFiles(query, files, idfs, n)
  {
    var ranked: map<K, real> := map[];
    var i := 0;
    while i < |query|
      invariant 0 <= i <= |query|
      invariant ranked == Ranked(query[..i], files, idfs)
    {
      assert query[..i + 1][..i] == query[..i];
      var w := query[i];
      if w in idfs {
        var tfidfs: map<K, real> := map[];
        var j := 0;
        while j < |files|
          invariant 0 <= j <= |files|
          invariant tfidfs == WordTfidfs(files[..j], w, idfs)
        {
          var count := multiset(files[j].1)[w];
          WordTfidfsSnoc(files, w, idfs, j);
          assert (count as real) * idfs[w] == TermScore(w, files[j].1, idfs);
          tfidfs := tfidfs[files[j].0 := (count as real) * idfs[w]];
          j := j + 1;
        }
        assert files[..j] == files;
        ranked := AddCounters(ranked, tfidfs);
      }
      i := i + 1;
    }
    assert query[..i] == query;
    var zeros := map k | k in ranked :: 0.0;
    top := TopKeys(Candidates(files, ranked, zeros), n);
    assert top == TopKeys(FileCandidates(query, files, idfs), n);
  }

  /** With non-negative idfs no file score is negative. */
  lemma {:induction false} FileScoreNonNegative(query: seq<string>, tokens: seq<string>, idfs: map<string, real>)
    requires NonNegative(idfs)
    ensures FileScore(query, tokens, idfs) >= 0.0
  {
    if query != [] {
      FileScoreNonNegative(query[..|query| - 1], tokens, idfs);
      var w := query[|query| - 1];
      if w in idfs {
        assert (multiset(tokens)[w] as real) * idfs[w] >= 0.0;
      }
    }
  }

  /** With distinct file names, the per-word dict gives each file its own
      count times idf. */
  lemma {:induction false} WordTfidfsAt<K>(files: seq<(K, seq<string>)>, w: string, idfs: map<string, real>, i: nat)
    requires DistinctKeys(files)
    requires i < |files|
    ensures files[i].0 in WordTfidfs(files, w, idfs)
    ensures WordTfidfs(files, w, idfs)[files[i].0] == TermScore(w, files[i].1, idfs)
  {
    var init := files[..|files| - 1];
    if i < |init| {
      assert init[i] == files[i];
      assert files[i].0 != files[|files| - 1].0;
      assert DistinctKeys(init) by {
        forall a, b | 0 <= a < b < |init| ensures init[a].0 != init[b].0 {
          assert init[a] == files[a] && init[b] == files[b];
        }
      }
      WordTfidfsAt(init, w, idfs, i);
    }
  }

  /** The running `Counter` is the reference score: with distinct file names
      and non-negative idfs, every file's entry (zero when absent) is its
      `FileScore`, whatever order the query words come in. */
  lemma {:induction false} RankedIsScore<K>(query: seq<string>, files: seq<(K, seq<string>)>, idfs: map<string, real>)
    requires DistinctKeys(files)
    requires NonNegative(idfs)
    ensures forall i :: 0 <= i < |files| ==> Get(Ranked(query, files, idfs), files[i].0) == FileScore(query, files[i].1, idfs)
  {
    if query != [] {
      var init := query[..|query| - 1];
      var w := query[|query| - 1];
      RankedIsScore(init, files, idfs);
      if w in idfs {
        var acc := Ranked(init, files, idfs);
        var tf := WordTfidfs(files, w, idfs);
        forall i | 0 <= i < |files|
          ensures Get(AddCounters(acc, tf), files[i].0) == FileScore(query, files[i].1, idfs)
        {
          WordTfidfsAt(files, w, idfs, i);
          FileScoreNonNegative(query, files[i].1, idfs);
          GetAddCounters(acc, tf, files[i].0);
          assert Get(tf, files[i].0) == TermScore(w, files[i].1, idfs);
        }
      }
    }
  }

  /** A file is ranked exactly when its score is positive, and then with
      that score. */
  lemma RankedScoreOf<K>(query: seq<string>, files: seq<(K, seq<string>)>, idfs: map<string, real>)
    requires DistinctKeys(files)
    requires NonNegative(idfs)
    ensures forall i :: 0 <= i < |files| ==>
      (files[i].0 in Ranked(query, files, idfs) <==> IsPositive(query, idfs)(files[i].1))
    ensures forall k :: k in Ranked(query, files, idfs) ==> Ranked(query, files, idfs)[k] == FileScoreOf(query, files, idfs, k)
  {
    var acc := Ranked(query, files, idfs);
    RankedKeys(query, files, idfs);
    RankedIsScore(query, files, idfs);
    forall i | 0 <= i < |files| ensures files[i].0 in acc <==> IsPositive(query, idfs)(files[i].1) {
      FileScoreNonNegative(query, files[i].1, idfs);
    }
    forall k | k in acc ensures acc[k] == FileScoreOf(query, files, idfs, k) {
      var i :| 0 <= i < |files| && files[i].0 == k;
      LookupAt(files, i);
    }
  }

  /** The candidates of the final sort are the positive files, in file
      order, none twice, each ranked by its score. */
  lemma FileCandidatesScored<K>(query: seq<string>, files: seq<(K, seq<string>)>, idfs: map<string, real>)
    requires DistinctKeys(files)
    requires NonNegative(idfs)
    ensures KeysOf(FileCandidates(query, files, idfs)) == PositiveFiles(query, files, idfs)
    ensures NoDupKeys(FileCandidates(query, files, idfs))
    ensures forall e :: e in FileCandidates(query, files, idfs) ==>
      e.key in KeySet(files) && e.rank.score == FileScoreOf(query, files, idfs, e.key) && e.rank.score > 0.0
  {
    var acc := Ranked(query, files, idfs);
    RankedScoreOf(query, files, idfs);
    CandidateKeys(files, acc, map k | k in acc :: 0.0, IsPositive(query, idfs));
  }

  /** Whatever the inputs, `top_files` returns at most `n` names, each the
      name of a file. */
  lemma TopFilesAreFiles<K>(query: seq<string>, files: seq<(K, seq<string>)>, idfs: map<string, real>, n: nat)
    ensures |RankFiles(query, files, idfs, n)| <= n
    ensures forall k :: k in RankFiles(query, files, idfs, n) ==> k in KeySet(files)
  {
    var c := FileCandidates(query, files, idfs);
    var r := Take(SortDesc(c), n);
    var top := KeysOf(r);
    TopSelection(c, n);
    forall k | k in top ensures k in KeySet(files) {
      var i :| 0 <= i < |top| && top[i] == k;
      assert r[i] in c;
    }
  }

  /** What `top_files` returns, with distinct file names and non-negative
      idfs (as `compute_idfs` produces): min(n, #positive files) names, none
      twice, each of a file with a strictly positive score. */
  lemma TopFilesChosen<K>(query: seq<string>, files: seq<(K, seq<string>)>, idfs: map<string, real>, n: nat)
    requires DistinctKeys(files)
    requires NonNegative(idfs)
    ensures |RankFiles(query, files, idfs, n)| == Min(n, |PositiveFiles(query, files, idfs)|)
    ensures forall k :: k in RankFiles(query, files, idfs, n) ==> k in KeySet(files) && FileScoreOf(query, files, idfs, k) > 0.0
    ensures forall i, j :: 0 <= i < j < |RankFiles(query, files, idfs, n)| ==>
      RankFiles(query, files, idfs, n)[i] != RankFiles(query, files, idfs, n)[j]
  {
    var c := FileCandidates(query, files, idfs);
    var r := Take(SortDesc(c), n);
    var top := KeysOf(r);
    FileCandidatesScored(query, files, idfs);
    TopSelection(c, n);
    forall k | k in top ensures k in KeySet(files) && FileScoreOf(query, files, idfs, k) > 0.0 {
      var i :| 0 <= i < |top| && top[i] == k;
      assert r[i] in c;
    }
  }

  /** The names come in non-increasing score order. */
  lemma TopFilesOrdered<K>(query: seq<string>, files: seq<(K, seq<string>)>, idfs: map<string, real>, n: nat)
    requires DistinctKeys(files)
    requires NonNegative(idfs)
    ensures forall i, j :: 0 <= i < j < |RankFiles(query, files, idfs, n)| ==>
      FileScoreOf(query, files, idfs, RankFiles(query, files, idfs, n)[i]) >= FileScoreOf(query, files, idfs, RankFiles(query, files, idfs, n)[j])
  {
    var c := FileCandidates(query, files, idfs);
    var r := Take(SortDesc(c), n);
    var top := KeysOf(r);
    FileCandidatesScored(query, files, idfs);
    TopSelection(c, n);
    forall i, j | 0 <= i < j < |top| ensures FileScoreOf(query, files, idfs, top[i]) >= FileScoreOf(query, files, idfs, top[j]) {
      assert r[i] in c && r[j] in c;
      assert AtLeast(r[i].rank, r[j].rank);
    }
  }

  /** No positive file left out scores above a file returned. */
  lemma TopFilesNoneBetter<K>(query: seq<string>, files: seq<(K, seq<string>)>, idfs: map<string, real>, n: nat)
    requires DistinctKeys(files)
    requires NonNegative(idfs)
    ensures forall k, i :: k in PositiveFiles(query, files, idfs) && k !in RankFiles(query, files, idfs, n) && 0 <= i < |RankFiles(query, files, idfs, n)| ==>
      FileScoreOf(query, files, idfs, k) <= FileScoreOf(query, files, idfs, RankFiles(query, files, idfs, n)[i])
  {
    var c := FileCandidates(query, files, idfs);
    var r := Take(SortDesc(c), n);
    var top := KeysOf(r);
    FileCandidatesScored(query, files, idfs);
    TopSelection(c, n);
    forall k, i | k in PositiveFiles(query, files, idfs) && k !in top && 0 <= i < |top|
      ensures FileScoreOf(query, files, idfs, k) <= FileScoreOf(query, files, idfs, top[i])
    {
      var a :| 0 <= a < |c| && KeysOf(c)[a] == k;
      assert c[a] !in r;
      assert r[i] in c;
      TopSelectionLeavesNoBetter(c, n, c[a], r[i]);
    }
  }

  /** A query none of whose words has a positive idf and occurs in some
      file ranks no file at all: `top_files` returns []. */
  lemma {:induction false} NoMatchNoFiles<K>(query: seq<string>, files: seq<(K, seq<string>)>, idfs: map<string, real>, n: nat)
    requires forall w, i :: w in query && w in idfs && 0 <= i < |files| && w in files[i].1 ==> idfs[w] == 0.0
    ensures Ranked(query, files, idfs) == map[]
    ensures RankFiles(query, files, idfs, n) == []
  {
    if query != [] {
      var init := query[..|query| - 1];
      var w := query[|query| - 1];
      NoMatchNoFiles(init, files, idfs, n);
      if w in idfs {
        var tf := WordTfidfs(files, w, idfs);
        forall k | k in tf ensures tf[k] == 0.0 {
          WordTfidfsZero(files, w, idfs, k);
        }
        assert AddCounters(map[], tf) == map[];
      }
    }
  }

  /** Each per-word entry is zero when the word's idf is zero or the word
      occurs in no file. */
  lemma {:induction false} WordTfidfsZero<K>(files: seq<(K, seq<string>)>, w: string, idfs: map<string, real>, k: K)
    requires w in idfs
    requires idfs[w] == 0.0 || forall i :: 0 <= i < |files| ==> w !in files[i].1
    requires k in WordTfidfs(files, w, idfs)
    ensures WordTfidfs(files, w, idfs)[k] == 0.0
  {
    var init := files[..|files| - 1];
    var last := files[|files| - 1];
    if k != last.0 {
      assert forall i :: 0 <= i < |init| ==> init[i] == files[i];
      WordTfidfsZero(init, w, idfs, k);
    } else if idfs[w] != 0.0 {
      assert w !in last.1;
    }
  }
}
