/** What `top_files` and `top_sentences` share: the `Counter(a) + Counter(b)`
    merge of score dicts, and the tail `sorted(items, key, reverse=True)[:n]`
    followed by taking the keys. */
module Ranking {
  import opened Collections

  /** `Counter(a) + Counter(b)`: the sum of the two counts for every key of
      either, keeping only the keys whose sum is strictly positive. */
  function AddCounters<K>(a: map<K, real>, b: map<K, real>): (c: map<K, real>)
    ensures forall k :: k in c ==> c[k] > 0.0
    ensures c.Keys <= a.Keys + b.Keys
  {
    map k | k in a.Keys + b.Keys && Get(a, k) + Get(b, k) > 0.0 :: Get(a, k) + Get(b, k)
  }

  /** The count of `k` after `Counter` addition: the sum when positive, else zero. */
  lemma GetAddCounters<K>(a: map<K, real>, b: map<K, real>, k: K)
    ensures Get(AddCounters(a, b), k) == if Get(a, k) + Get(b, k) > 0.0 then Get(a, k) + Get(b, k) else 0.0
  {
  }

  /** The sort key of one item: `x[1]` for files, `(x[1], density)` for
      sentences; files use 0.0 as the second component, which leaves their
      order by score unchanged. */
  datatype Rank = Rank(score: real, tie: real)

  /** Tuple comparison `a >= b`: lexicographic. */
  predicate AtLeast(a: Rank, b: Rank)
  {
    a.score > b.score || (a.score == b.score && a.tie >= b.tie)
  }

  /** One `(key, sort key)` item of the dict being sorted. */
  datatype Entry<K> = Entry(key: K, rank: Rank)

  /** Non-increasing order, as `sorted(..., reverse=True)` produces. */
  predicate SortedDesc<K>(s: seq<Entry<K>>)
  {
    forall i, j :: 0 <= i < j < |s| ==> AtLeast(s[i].rank, s[j].rank)
  }

  predicate NoDupKeys<K(==)>(s: seq<Entry<K>>)
  {
    forall i, j :: 0 <= i < j < |s| ==> s[i].key != s[j].key
  }

  /** Inserts `e` in front of the first entry it is at least as large as. */
  function Insert<K(==)>(e: Entry<K>, s: seq<Entry<K>>): (r: seq<Entry<K>>)
    requires SortedDesc(s)
    ensures SortedDesc(r)
    ensures multiset(r) == multiset(s) + multiset{e}
    ensures NoDupKeys(s) && (forall x :: x in s ==> x.key != e.key) ==> NoDupKeys(r)
  {
    if s == [] then [e]
    else if AtLeast(e.rank, s[0].rank) then
      SortedCons(e, s);
      assert NoDupKeys(s) && (forall x :: x in s ==> x.key != e.key) ==> NoDupKeys([e] + s) by {
        if NoDupKeys(s) && (forall x :: x in s ==> x.key != e.key) {
          DistinctCons(e, s);
        }
      }
      [e] + s
    else
      var rest := Insert(e, s[1..]);
      assert s == [s[0]] + s[1..];
      InsertBehind(e, s, rest);
      [s[0]] + rest
  }

  /** When `e` ranks below the head of `s`, the head stays in front of the
      insertion into the tail. */
  lemma InsertBehind<K>(e: Entry<K>, s: seq<Entry<K>>, rest: seq<Entry<K>>)
    requires SortedDesc(s) && s != [] && !AtLeast(e.rank, s[0].rank)
    requires SortedDesc(rest) && multiset(rest) == multiset(s[1..]) + multiset{e}
    requires NoDupKeys(s[1..]) && (forall x :: x in s[1..] ==> x.key != e.key) ==> NoDupKeys(rest)
    ensures SortedDesc([s[0]] + rest)
    ensures NoDupKeys(s) && (forall x :: x in s ==> x.key != e.key) ==> NoDupKeys([s[0]] + rest)
  {
    forall x | x in rest ensures x == e || x in s[1..] {
      assert x in multiset(rest);
    }
    forall x | x in rest ensures AtLeast(s[0].rank, x.rank) {
      if x != e {
        var j :| 0 <= j < |s[1..]| && s[1..][j] == x;
        assert s[j + 1] == x;
      }
    }
    SortedCons(s[0], rest);
    if NoDupKeys(s) && (forall x :: x in s ==> x.key != e.key) {
      assert NoDupKeys(s[1..]) by {
        forall a, b | 0 <= a < b < |s[1..]| ensures s[1..][a].key != s[1..][b].key {
          assert s[1..][a] == s[a + 1] && s[1..][b] == s[b + 1];
        }
      }
      forall x | x in rest ensures x.key != s[0].key {
        if x != e {
          var j :| 0 <= j < |s[1..]| && s[1..][j] == x;
          assert s[j + 1] == x;
        }
      }
      DistinctCons(s[0], rest);
    }
  }

  /** An entry at least as large as the first one of a sorted sequence, or
      as every one of its entries, can go in front of it. */
  lemma SortedCons<K>(e: Entry<K>, s: seq<Entry<K>>)
    requires SortedDesc(s)
    requires (s != [] && AtLeast(e.rank, s[0].rank)) || forall x :: x in s ==> AtLeast(e.rank, x.rank)
    ensures SortedDesc([e] + s)
  {
    forall i, j | 0 <= i < j < |s| + 1 ensures AtLeast(([e] + s)[i].rank, ([e] + s)[j].rank) {
      if i == 0 {
        assert s[j - 1] in s;
        if s != [] && AtLeast(e.rank, s[0].rank) && j > 1 {
          assert AtLeast(s[0].rank, s[j - 1].rank);
        }
      } else {
        assert ([e] + s)[i] == s[i - 1] && ([e] + s)[j] == s[j - 1];
      }
    }
  }

  /** An entry whose key is new can go in front without repeating a key. */
  lemma DistinctCons<K>(e: Entry<K>, s: seq<Entry<K>>)
    requires NoDupKeys(s)
    requires forall x :: x in s ==> x.key != e.key
    ensures NoDupKeys([e] + s)
  {
    forall i, j | 0 <= i < j < |s| + 1 ensures ([e] + s)[i].key != ([e] + s)[j].key {
      assert ([e] + s)[j] == s[j - 1];
      if i > 0 {
        assert ([e] + s)[i] == s[i - 1];
      }
    }
  }

  /** A stable descending sort (insertion sort): entries with equal rank keep
      their input order, as Python's `sorted` does. */
  function SortDesc<K(==)>(s: seq<Entry<K>>): (r: seq<Entry<K>>)
    ensures SortedDesc(r)
    ensures multiset(r) == multiset(s)
    ensures NoDupKeys(s) ==> NoDupKeys(r)
  {
    if s == [] then []
    else
      var rest := SortDesc(s[1..]);
      assert s == [s[0]] + s[1..];
      assert NoDupKeys(s) ==> NoDupKeys(s[1..]) && forall x :: x in rest ==> x.key != s[0].key by {
        if NoDupKeys(s) {
          forall i, j | 0 <= i < j < |s[1..]| ensures s[1..][i].key != s[1..][j].key {
            assert s[1..][i] == s[i + 1] && s[1..][j] == s[j + 1];
          }
          forall x | x in rest ensures x.key != s[0].key {
            assert x in multiset(rest);
            var j :| 0 <= j < |s[1..]| && s[1..][j] == x;
            assert s[j + 1] == x;
          }
        }
      }
      Insert(s[0], rest)
  }

  /** `lst[:n]` for `n >= 0`. */
  function Take<T>(s: seq<T>, n: nat): (r: seq<T>)
    ensures |r| == Min(n, |s|)
  {
    s[..Min(n, |s|)]
  }

  /** `[t[0] for t in lst]`. */
  function KeysOf<K>(s: seq<Entry<K>>): (ks: seq<K>)
    ensures |ks| == |s| && forall i :: 0 <= i < |s| ==> ks[i] == s[i].key
  {
    seq(|s|, i requires 0 <= i < |s| => s[i].key)
  }

  /** The sorted, sliced result: `[x[0] for x in sorted(c, reverse=True)[:n]]`. */
  function TopKeys<K(==)>(c: seq<Entry<K>>, n: nat): seq<K>
  {
    KeysOf(Take(SortDesc(c), n))
  }

  /** The selection `sorted(c, reverse=True)[:n]` has min(n, |c|) entries,
      all taken from `c`, in non-increasing order, and repeats no key when
      `c` repeats none. */
  lemma TopSelection<K>(c: seq<Entry<K>>, n: nat)
    ensures |Take(SortDesc(c), n)| == Min(n, |c|)
    ensures SortedDesc(Take(SortDesc(c), n))
    ensures forall e :: e in Take(SortDesc(c), n) ==> e in c
    ensures NoDupKeys(c) ==> NoDupKeys(Take(SortDesc(c), n))
  {
    var s := SortDesc(c);
    assert |s| == |c| by {
      assert |multiset(s)| == |multiset(c)|;
    }
    forall e | e in Take(s, n) ensures e in c {
      assert e in multiset(s);
    }
  }

  /** No entry of `c` that the selection leaves out ranks above an entry it
      keeps. */
  lemma TopSelectionLeavesNoBetter<K>(c: seq<Entry<K>>, n: nat, e: Entry<K>, x: Entry<K>)
    requires e in c && e !in Take(SortDesc(c), n)
    requires x in Take(SortDesc(c), n)
    ensures AtLeast(x.rank, e.rank)
  {
    var s := SortDesc(c);
    var r := Take(s, n);
    assert e in multiset(s);
    var j :| 0 <= j < |s| && s[j] == e;
    var i :| 0 <= i < |r| && r[i] == x;
    assert s[i] == x;
  }

  /** The items of `pairs` whose key is in `acc`, in the order of `pairs`,
      each with its sort key `(acc[k], tie[k])`. */
  function Candidates<K(==), V>(pairs: seq<(K, V)>, acc: map<K, real>, tie: map<K, real>): (c: seq<Entry<K>>)
    requires acc.Keys <= tie.Keys
    ensures forall e :: e in c ==> e.key in acc && e.key in KeySet(pairs) && e.rank == Rank(acc[e.key], tie[e.key])
    ensures DistinctKeys(pairs) ==> NoDupKeys(c)
  {
    if pairs == [] then []
    else
      var rest := Candidates(pairs[1..], acc, tie);
      assert DistinctKeys(pairs) ==> DistinctKeys(pairs[1..]) by {
        if DistinctKeys(pairs) {
          forall a, b | 0 <= a < b < |pairs[1..]| ensures pairs[1..][a].0 != pairs[1..][b].0 {
            assert pairs[1..][a] == pairs[a + 1] && pairs[1..][b] == pairs[b + 1];
          }
        }
      }
      assert forall e :: e in rest ==> e.key in KeySet(pairs) by {
        forall e | e in rest ensures e.key in KeySet(pairs) {
          var i :| 0 <= i < |pairs[1..]| && pairs[1..][i].0 == e.key;
          assert pairs[i + 1].0 == e.key;
        }
      }
      if pairs[0].0 in acc then
        assert DistinctKeys(pairs) ==> forall e :: e in rest ==> e.key != pairs[0].0 by {
          if DistinctKeys(pairs) {
            forall e | e in rest ensures e.key != pairs[0].0 {
              var i :| 0 <= i < |pairs[1..]| && pairs[1..][i].0 == e.key;
              assert pairs[i + 1].0 == e.key;
            }
          }
        }
        [Entry(pairs[0].0, Rank(acc[pairs[0].0], tie[pairs[0].0]))] + rest
      else rest
  }

  /** Only the tie-breaking values of ranked keys matter to the candidates. */
  lemma {:induction false} CandidatesTieAgree<K, V>(pairs: seq<(K, V)>, acc: map<K, real>, tie: map<K, real>, tie': map<K, real>)
    requires acc.Keys <= tie.Keys && acc.Keys <= tie'.Keys
    requires forall k :: k in acc ==> tie[k] == tie'[k]
    ensures Candidates(pairs, acc, tie) == Candidates(pairs, acc, tie')
  {
    if pairs != [] {
      CandidatesTieAgree(pairs[1..], acc, tie, tie');
    }
  }

  /** The keys of the candidates are the keys of `pairs` whose item satisfies
      `p`, when membership in `acc` is exactly `p`. */
  lemma {:induction false} CandidateKeys<K, V>(pairs: seq<(K, V)>, acc: map<K, real>, tie: map<K, real>, p: V -> bool)
    requires acc.Keys <= tie.Keys
    requires forall i :: 0 <= i < |pairs| ==> (pairs[i].0 in acc <==> p(pairs[i].1))
    ensures KeysOf(Candidates(pairs, acc, tie)) == KeysWhere(pairs, p)
  {
    if pairs != [] {
      forall i | 0 <= i < |pairs[1..]| ensures pairs[1..][i].0 in acc <==> p(pairs[1..][i].1) {
        assert pairs[1..][i] == pairs[i + 1];
      }
      CandidateKeys(pairs[1..], acc, tie, p);
      assert pairs[0].0 in acc <==> p(pairs[0].1);
      var c := Candidates(pairs, acc, tie);
      var rest := Candidates(pairs[1..], acc, tie);
      if pairs[0].0 in acc {
        assert KeysOf(c) == [pairs[0].0] + KeysOf(rest);
      } else {
        assert KeysOf(c) == KeysOf(rest);
      }
    }
  }

  /** The keys of `pairs` whose item satisfies `p`, in order: a key is listed
      exactly when some item with that key satisfies `p`. */
  function KeysWhere<K, V>(pairs: seq<(K, V)>, p: V -> bool): (ks: seq<K>)
    ensures forall k :: k in ks ==> exists i :: 0 <= i < |pairs| && pairs[i].0 == k && p(pairs[i].1)
    ensures forall i :: 0 <= i < |pairs| && p(pairs[i].1) ==> pairs[i].0 in ks
  {
    if pairs == [] then []
    else
      var rest := KeysWhere(pairs[1..], p);
      assert forall k :: k in rest ==> exists i :: 0 <= i < |pairs| && pairs[i].0 == k && p(pairs[i].1) by {
        forall k | k in rest ensures exists i :: 0 <= i < |pairs| && pairs[i].0 == k && p(pairs[i].1) {
          var i :| 0 <= i < |pairs[1..]| && pairs[1..][i].0 == k && p(pairs[1..][i].1);
          assert pairs[i + 1] == pairs[1..][i];
        }
      }
      assert forall i :: 1 <= i < |pairs| && p(pairs[i].1) ==> pairs[i].0 in rest by {
        forall i | 1 <= i < |pairs| && p(pairs[i].1) ensures pairs[i].0 in rest {
          assert pairs[1..][i - 1] == pairs[i];
        }
      }
      if p(pairs[0].1) then [pairs[0].0] + rest else rest
  }
}
