/** Guava's HashMultimap as a map from keys to non-empty sets of values: a key is
    present exactly while it has at least one value, and putting an entry that is
    already there changes nothing. */
module Multimaps {
  /** `get(k)`: the values of `k`; a missing key has none. */
  function Get<K, V>(m: map<K, set<V>>, k: K): set<V> {
    if k in m then m[k] else {}
  }

  /** No key maps to the empty set. */
  predicate IsMultimap<K, V>(m: map<K, set<V>>) {
    forall k | k in m :: m[k] != {}
  }

  /** The (key, value) entries of `m`. */
  function Entries<K, V>(m: map<K, set<V>>): set<(K, V)> {
    set k, v | k in m && v in m[k] :: (k, v)
  }

  lemma EntryIsValue<K, V>(m: map<K, set<V>>, k: K, v: V)
    ensures (k, v) in Entries(m) <==> v in Get(m, k)
  {
    if v in Get(m, k) {
      assert (k, v) in Entries(m);
    }
  }

  /** `put(k, v)`. */
  function Put<K, V>(m: map<K, set<V>>, k: K, v: V): (r: map<K, set<V>>)
    ensures IsMultimap(m) ==> IsMultimap(r)
    ensures Entries(r) == Entries(m) + {(k, v)}
    ensures r.Keys == m.Keys + {k}
    ensures forall k' | k' in r :: r[k'] == if k' == k then Get(m, k) + {v} else m[k']
  {
    var r := m[k := Get(m, k) + {v}];
    assert (k, v) in Entries(r);
    r
  }

  /** `remove(k, v)`: the map without that entry; a key left without values goes. */
  function RemoveEntry<K, V>(m: map<K, set<V>>, k: K, v: V): (r: map<K, set<V>>)
    ensures IsMultimap(m) ==> IsMultimap(r)
    ensures Entries(r) == Entries(m) - {(k, v)}
    ensures r.Keys <= m.Keys
    ensures forall k' | k' in r :: r[k'] == if k' == k then m[k] - {v} else m[k']
    ensures IsMultimap(m) ==> (k in r <==> k in m && m[k] != {v})
  {
    if k in m && v in m[k] then
      if m[k] == {v} then m - {k} else m[k := m[k] - {v}]
    else m
  }

  /** The entries of `m` whose key is in `keys`. */
  ghost function EntriesFrom<K, V>(m: map<K, set<V>>, keys: set<K>): set<(K, V)> {
    set k, v | k in keys && v in Get(m, k) :: (k, v)
  }

  lemma EntriesFromAdd<K, V>(m: map<K, set<V>>, keys: set<K>, k: K)
    ensures EntriesFrom(m, keys + {k}) == EntriesFrom(m, keys) + set v | v in Get(m, k) :: (k, v)
  {
  }

  /** One more key's entries, added to a collection of the entries of some keys. */
  lemma EntriesFromStep<K, V>(m: map<K, set<V>>, keys: set<K>, k: K, base: set<(K, V)>, e0: set<(K, V)>, e1: set<(K, V)>)
    requires e0 == base + EntriesFrom(m, keys)
    requires e1 == e0 + set v | v in Get(m, k) :: (k, v)
    ensures e1 == base + EntriesFrom(m, keys + {k})
  {
    EntriesFromAdd(m, keys, k);
  }

  /** Keys beyond the map's own add no entries. */
  lemma EntriesFromAll<K, V>(m: map<K, set<V>>, keys: set<K>)
    requires m.Keys <= keys
    ensures EntriesFrom(m, keys) == Entries(m)
  {
  }
}
