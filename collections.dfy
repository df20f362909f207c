/** Shared vocabulary for the model: a Python dict is represented by the
    sequence of its (key, value) items in iteration order, with distinct keys. */
module Collections {

  /** The keys of a dict given as its items. */
  function KeySet<K, V>(items: seq<(K, V)>): set<K>
  {
    set i | 0 <= i < |items| :: items[i].0
  }

  /** A dict's items never repeat a key. */
  predicate DistinctKeys<K(==), V>(items: seq<(K, V)>)
  {
    forall i, j :: 0 <= i < j < |items| ==> items[i].0 != items[j].0
  }

  /** `d[k]` for a dict given as its items: the value of the first item with key `k`. */
  function Lookup<K(==), V>(items: seq<(K, V)>, k: K): (v: V)
    requires k in KeySet(items)
    ensures (k, v) in items
    decreases |items|
  {
    if items[0].0 == k then items[0].1
    else
      assert k in KeySet(items[1..]) by {
        var i :| 0 <= i < |items| && items[i].0 == k;
        assert items[1..][i - 1].0 == k;
      }
      Lookup(items[1..], k)
  }

  /** With distinct keys, looking up an item's key finds that item's value. */
  lemma {:induction false} LookupAt<K, V>(items: seq<(K, V)>, i: nat)
    requires DistinctKeys(items)
    requires i < |items|
    ensures items[i].0 in KeySet(items)
    ensures Lookup(items, items[i].0) == items[i].1
  {
    assert items[i].0 in KeySet(items);
    if i > 0 {
      assert items[1..][i - 1] == items[i];
      assert DistinctKeys(items[1..]) by {
        forall a, b | 0 <= a < b < |items[1..]| ensures items[1..][a].0 != items[1..][b].0 {
          assert items[1..][a] == items[a + 1] && items[1..][b] == items[b + 1];
        }
      }
      LookupAt(items[1..], i - 1);
    }
  }

  /** The keys of a non-empty dict are those of all items but the last,
      plus the last one's. */
  lemma KeySetSnoc<K, V>(items: seq<(K, V)>)
    requires items != []
    ensures KeySet(items) == KeySet(items[..|items| - 1]) + {items[|items| - 1].0}
  {
    var init := items[..|items| - 1];
    forall k | k in KeySet(items) ensures k in KeySet(init) + {items[|items| - 1].0} {
      var i :| 0 <= i < |items| && items[i].0 == k;
      if i < |init| {
        assert init[i] == items[i];
      }
    }
    forall k | k in KeySet(init) ensures k in KeySet(items) {
      var i :| 0 <= i < |init| && init[i].0 == k;
      assert items[i] == init[i];
    }
  }

  /** Every value of the table is non-negative, as for tables of idf values. */
  predicate NonNegative<K>(m: map<K, real>)
  {
    forall k :: k in m ==> m[k] >= 0.0
  }

  /** Python's `Counter(m)[k]`: a missing key counts as zero. */
  function Get<K>(m: map<K, real>, k: K): real
  {
    if k in m then m[k] else 0.0
  }

  /** Python's `w in s` on two strings: `w` occurs in `s` as a contiguous block. */
  predicate Occurs<T(==)>(w: seq<T>, s: seq<T>)
    decreases |s|
  {
    w <= s || (|s| > 0 && Occurs(w, s[1..]))
  }

  /** `w` is the block of `s` that starts at index `i`. */
  predicate OccursAt<T(==)>(w: seq<T>, s: seq<T>, i: nat)
  {
    i + |w| <= |s| && s[i..i + |w|] == w
  }

  /** `Occurs` is exactly "equals the block of `s` at some index". */
  lemma {:induction false} OccursIff<T>(w: seq<T>, s: seq<T>)
    ensures Occurs(w, s) <==> exists i: nat :: OccursAt(w, s, i)
    decreases |s|
  {
    if w <= s {
      assert OccursAt(w, s, 0);
    } else if |s| > 0 {
      OccursIff(w, s[1..]);
      if Occurs(w, s[1..]) {
        var i: nat :| OccursAt(w, s[1..], i);
        assert s[i + 1..i + 1 + |w|] == s[1..][i..i + |w|];
        assert OccursAt(w, s, i + 1);
      } else {
        forall i: nat | OccursAt(w, s, i) ensures false {
          if i > 0 {
            assert s[1..][i - 1..i - 1 + |w|] == s[i..i + |w|];
            assert OccursAt(w, s[1..], i - 1);
          }
        }
      }
    }
  }

  /** `a` is an order-preserving subsequence of `b`. */
  predicate IsSubsequence<T(==)>(a: seq<T>, b: seq<T>)
    decreases |b|
  {
    a == [] || (b != [] && ((a[0] == b[0] && IsSubsequence(a[1..], b[1..])) || IsSubsequence(a, b[1..])))
  }

  /** The elements of a list, as a set. */
  function Elements<T>(s: seq<T>): set<T>
  {
    set a | 0 <= a < |s| :: s[a]
  }

  /** A list has at most as many distinct elements as entries. */
  lemma {:induction false} ElementsCard<T>(s: seq<T>)
    ensures |Elements(s)| <= |s|
  {
    if s != [] {
      var init := s[..|s| - 1];
      assert Elements(s) == Elements(init) + {s[|s| - 1]} by {
        forall x | x in Elements(s) ensures x in Elements(init) + {s[|s| - 1]} {
          var a :| 0 <= a < |s| && s[a] == x;
          if a < |init| {
            assert init[a] == x;
          }
        }
        forall x | x in Elements(init) ensures x in Elements(s) {
          var a :| 0 <= a < |init| && init[a] == x;
          assert s[a] == x;
        }
      }
      ElementsCard(init);
    }
  }

  /** A subset is no larger than its superset. */
  lemma SubsetCard<T>(a: set<T>, b: set<T>)
    requires a <= b
    ensures |a| <= |b|
  {
    assert b == a + (b - a);
  }

  function Min(a: nat, b: nat): nat
  {
    if a <= b then a else b
  }
}
