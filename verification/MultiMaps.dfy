/**
 * Maps from a key to a non-empty set of values, as the source keeps them in a dozen places.
 * Such a map is the index of exactly one set of (key, value) pairs.
 */
module MultiMaps {
  import opened Base

  type MultiMap<!K, !V> = map<K, set<V>>

  /** `m` groups `pairs` by key and has no empty entry. */
  ghost predicate Indexes<K(!new), V(!new)>(m: MultiMap<K, V>, pairs: set<(K, V)>) {
    && (forall k, v {:trigger (k, v) in pairs} :: (k, v) in pairs ==> k in m && v in m[k])
    && (forall k, v {:trigger v in m[k]} :: k in m && v in m[k] ==> (k, v) in pairs)
    && (forall k :: k in m ==> m[k] != {})
  }

  /** Insert `v` under `k`, as `entry(k).or_default().insert(v)`. */
  function Add<K, V>(m: MultiMap<K, V>, k: K, v: V): MultiMap<K, V> {
    m[k := GetOr(m, k, {}) + {v}]
  }

  /** Remove `v` under `k`, and the entry with its last value; a missing key is left alone. */
  function Remove<K, V>(m: MultiMap<K, V>, k: K, v: V): MultiMap<K, V> {
    if k !in m then m
    else if m[k] - {v} == {} then m - {k}
    else m[k := m[k] - {v}]
  }

  lemma IndexUnique<K(!new), V(!new)>(m: MultiMap<K, V>, n: MultiMap<K, V>, pairs: set<(K, V)>)
    requires Indexes(m, pairs) && Indexes(n, pairs)
    ensures m == n
  {
    forall k | k in m ensures k in n && n[k] == m[k] {
      SameEntry(m, n, pairs, k);
    }
    forall k | k in n ensures k in m {
      SameEntry(n, m, pairs, k);
    }
  }

  lemma SameEntry<K(!new), V(!new)>(m: MultiMap<K, V>, n: MultiMap<K, V>, pairs: set<(K, V)>, k: K)
    requires Indexes(m, pairs) && Indexes(n, pairs) && k in m
    ensures k in n && n[k] == m[k]
  {
    var w :| w in m[k];
    assert (k, w) in pairs;
    forall v ensures v in m[k] <==> v in n[k] {
      if v in m[k] { assert (k, v) in pairs; }
      if v in n[k] { assert (k, v) in pairs; }
    }
  }

  /** The index determines its pairs. */
  lemma PairsUnique<K(!new), V(!new)>(m: MultiMap<K, V>, p: set<(K, V)>, q: set<(K, V)>)
    requires Indexes(m, p) && Indexes(m, q)
    ensures p == q
  {
    forall x | x in p ensures x in q { assert (x.0, x.1) in p; assert x.1 in m[x.0]; }
    forall x | x in q ensures x in p { assert (x.0, x.1) in q; assert x.1 in m[x.0]; }
  }

  lemma IndexAdd<K(!new), V(!new)>(m: MultiMap<K, V>, pairs: set<(K, V)>, k: K, v: V)
    requires Indexes(m, pairs)
    ensures Indexes(Add(m, k, v), pairs + {(k, v)})
  {}

  lemma IndexRemove<K(!new), V(!new)>(m: MultiMap<K, V>, pairs: set<(K, V)>, k: K, v: V)
    requires Indexes(m, pairs)
    ensures Indexes(Remove(m, k, v), pairs - {(k, v)})
  {
    var m' := Remove(m, k, v);
    forall j, w | (j, w) in pairs - {(k, v)} ensures j in m' && w in m'[j] {
      assert (j, w) in pairs;
      if j == k { assert w in m[k] - {v}; }
    }
    if k !in m && (k, v) in pairs {
      assert false;
    }
  }

  lemma AddTwice<K, V>(m: MultiMap<K, V>, k: K, v: V)
    ensures Add(Add(m, k, v), k, v) == Add(m, k, v)
  {}

  /** Every set of pairs has an index. */
  ghost function Index<K(!new), V(!new)>(pairs: set<(K, V)>): (m: MultiMap<K, V>)
    ensures Indexes(m, pairs)
  {
    var keys := set x | x in pairs :: x.0;
    map k | k in keys :: set x | x in pairs && x.0 == k :: x.1
  }
}
