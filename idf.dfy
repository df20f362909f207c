/** `compute_idfs`: document frequencies and inverse document frequencies
    over a dict from document name to word list. */
module Idf {
  import opened Collections

  /** The properties of `math.log(x, e)` the model relies on: log 1 = 0 and
      the logarithm is strictly increasing from 1 on. The logarithm itself is
      a parameter, so no floating-point behaviour is modelled. */
  ghost predicate IsNaturalLog(ln: real -> real)
  {
    ln(1.0) == 0.0 && forall x: real, y: real :: 1.0 <= x < y ==> ln(x) < ln(y)
  }

  /** Number of documents whose list contains `w` (presence, not frequency). */
  function DocFreq<K>(docs: seq<(K, seq<string>)>, w: string): nat
  {
    if docs == [] then 0
    else DocFreq(docs[..|docs| - 1], w) + (if w in docs[|docs| - 1].1 then 1 else 0)
  }

  /** Every word occurring in some document's list. */
  function Vocabulary<K>(docs: seq<(K, seq<string>)>): set<string>
  {
    if docs == [] then {}
    else Vocabulary(docs[..|docs| - 1]) + Elements(docs[|docs| - 1].1)
  }

  /** The words of the vocabulary are exactly those with a positive document
      frequency, and no document frequency exceeds the number of documents. */
  lemma {:induction false} DocFreqRange<K>(docs: seq<(K, seq<string>)>, w: string)
    ensures DocFreq(docs, w) <= |docs|
    ensures w in Vocabulary(docs) <==> DocFreq(docs, w) >= 1
  {
    if docs != [] {
      DocFreqRange(docs[..|docs| - 1], w);
    }
  }

  /** A word has positive document frequency exactly when some document
      contains it. */
  lemma {:induction false} DocFreqPositive<K>(docs: seq<(K, seq<string>)>, w: string)
    ensures DocFreq(docs, w) >= 1 <==> exists i :: 0 <= i < |docs| && w in docs[i].1
  {
    if docs != [] {
      var init := docs[..|docs| - 1];
      DocFreqPositive(init, w);
      if exists i :: 0 <= i < |init| && w in init[i].1 {
        var i :| 0 <= i < |init| && w in init[i].1;
        assert w in docs[i].1;
      }
      if exists i :: 0 <= i < |docs| && w in docs[i].1 {
        var i :| 0 <= i < |docs| && w in docs[i].1;
        if i < |init| {
          assert w in init[i].1;
        }
      }
    }
  }

  /** A word's document frequency is the number of documents exactly when
      every document contains it. */
  lemma {:induction false} DocFreqAll<K>(docs: seq<(K, seq<string>)>, w: string)
    ensures DocFreq(docs, w) == |docs| <==> forall i :: 0 <= i < |docs| ==> w in docs[i].1
  {
    if docs != [] {
      var init := docs[..|docs| - 1];
      DocFreqAll(init, w);
      DocFreqRange(init, w);
      if forall i :: 0 <= i < |docs| ==> w in docs[i].1 {
        forall i | 0 <= i < |init| ensures w in init[i].1 {
          assert init[i] == docs[i];
        }
      }
      if DocFreq(docs, w) == |docs| {
        forall i | 0 <= i < |docs| ensures w in docs[i].1 {
          if i < |init| {
            assert init[i] == docs[i];
          }
        }
      }
    }
  }

  /** `log(N / df)` for a word of the vocabulary. */
  function IdfOf<K>(docs: seq<(K, seq<string>)>, ln: real -> real, w: string): real
    requires w in Vocabulary(docs)
  {
    DocFreqRange(docs, w);
    ln(|docs| as real / DocFreq(docs, w) as real)
  }

  /** The range of an idf value: never negative and at most log N; zero
      exactly when every document contains the word, and log N exactly when
      a single document does. */
  lemma IdfRange<K>(docs: seq<(K, seq<string>)>, ln: real -> real, w: string)
    requires IsNaturalLog(ln)
    requires w in Vocabulary(docs)
    ensures 0.0 <= IdfOf(docs, ln, w) <= ln(|docs| as real)
    ensures IdfOf(docs, ln, w) == 0.0 <==> forall i :: 0 <= i < |docs| ==> w in docs[i].1
    ensures IdfOf(docs, ln, w) == ln(|docs| as real) <==> DocFreq(docs, w) == 1
  {
    DocFreqRange(docs, w);
    DocFreqAll(docs, w);
    var n, df := |docs| as real, DocFreq(docs, w) as real;
    QuotientRange(n, df);
    var x := n / df;
    if 1.0 < x {
      assert ln(1.0) < ln(x);
    }
    if x < n {
      assert ln(x) < ln(n);
    }
  }

  /** N / df for 1 <= df <= N lies in [1, N], is 1 exactly when df = N and
      N exactly when df = 1. */
  lemma QuotientRange(n: real, df: real)
    requires 1.0 <= df <= n
    ensures 1.0 <= n / df
    ensures n / df <= n
    ensures n / df == 1.0 <==> df == n
    ensures n / df == n <==> df == 1.0
  {
    var x := n / df;
    assert x * df == n;
    assert n * 1.0 <= n * df;
    assert x * df <= n * df;
    assert x * df >= 1.0 * df;
    if x == n && df != 1.0 {
      assert n * df > n;
    }
  }

  /** Every value in a table computed by `compute_idfs` is non-negative. */
  lemma IdfsNonNegative<K>(docs: seq<(K, seq<string>)>, ln: real -> real, idfs: map<string, real>)
    requires IsNaturalLog(ln)
    requires idfs.Keys == Vocabulary(docs)
    requires forall w :: w in idfs ==> idfs[w] == IdfOf(docs, ln, w)
    ensures forall w :: w in idfs ==> idfs[w] >= 0.0
  {
    forall w | w in idfs ensures idfs[w] >= 0.0 {
      IdfRange(docs, ln, w);
    }
  }

  /** The first loop of `compute_idfs`: every word of every document
      enters the dict `counts` with count 0. `words` is the order in which
      `counts` received its keys, which is the order later loops visit them in. */
  method CollectWords<K>(docs: seq<(K, seq<string>)>) returns (counts: map<string, nat>, words: seq<string>)
    ensures counts.Keys == Vocabulary(docs)
    ensures forall w :: w in counts ==> counts[w] == 0
    ensures forall w :: w in counts <==> w in words
    ensures forall a, b :: 0 <= a < b < |words| ==> words[a] != words[b]
  {
    counts, words := map[], [];
    var i := 0;
    while i < |docs|
      invariant 0 <= i <= |docs|
      invariant counts.Keys == Vocabulary(docs[..i])
      invariant forall w :: w in counts ==> counts[w] == 0
      invariant forall w :: w in counts <==> w in words
      invariant forall a, b :: 0 <= a < b < |words| ==> words[a] != words[b]
    {
      var tokens := docs[i].1;
      assert docs[..i + 1][..i] == docs[..i];
      var j := 0;
      while j < |tokens|
        invariant 0 <= j <= |tokens|
        invariant counts.Keys == Vocabulary(docs[..i]) + Elements(tokens[..j])
        invariant forall w :: w in counts ==> counts[w] == 0
        invariant forall w :: w in counts <==> w in words
        invariant forall a, b :: 0 <= a < b < |words| ==> words[a] != words[b]
      {
        assert tokens[..j + 1] == tokens[..j] + [tokens[j]];
        if tokens[j] !in counts {
          counts := counts[tokens[j] := 0];
          words := words + [tokens[j]];
        }
        j := j + 1;
      }
      assert tokens[..j] == tokens;
      i := i + 1;
    }
    assert docs[..i] == docs;
  }

  /** `compute_idfs(documents)`: after `CollectWords`, the second loop counts,
      word by word, the documents containing it; the third turns each
      non-zero count into `log(N / count)`. */
  method ComputeIdfs<K>(docs: seq<(K, seq<string>)>, ln: real -> real) returns (idfs: map<string, real>)
    ensures idfs.Keys == Vocabulary(docs)
    ensures forall w :: w in idfs ==> idfs[w] == IdfOf(docs, ln, w)
    ensures docs == [] ==> idfs == map[]
  {
    var total := |docs|;
    var counts, words := CollectWords(docs);

    var k := 0;
    while k < |words|
      invariant 0 <= k <= |words|
      invariant counts.Keys == Vocabulary(docs)
      invariant forall m :: 0 <= m < k ==> counts[words[m]] == DocFreq(docs, words[m])
      invariant forall m :: k <= m < |words| ==> counts[words[m]] == 0
    {
      var w := words[k];
      ghost var before := counts;
      var d := 0;
      while d < |docs|
        invariant 0 <= d <= |docs|
        invariant counts == before[w := DocFreq(docs[..d], w)]
      {
        assert docs[..d + 1][..d] == docs[..d];
        if w in docs[d].1 {
          counts := counts[w := counts[w] + 1];
        }
        d := d + 1;
      }
      assert docs[..d] == docs;
      k := k + 1;
    }

    idfs := map[];
    var m := 0;
    while m < |words|
      invariant 0 <= m <= |words|
      invariant idfs.Keys == set a | 0 <= a < m :: words[a]
      invariant forall w :: w in idfs ==> idfs[w] == IdfOf(docs, ln, w)
    {
      var w := words[m];
      DocFreqRange(docs, w);
      if counts[w] != 0 {
        idfs := idfs[w := ln(total as real / counts[w] as real)];
      }
      m := m + 1;
    }
    assert idfs.Keys == counts.Keys by {
      forall w | w in counts ensures w in idfs {
        var a :| 0 <= a < |words| && words[a] == w;
      }
    }
  }
}
