/**
 Python's `dict`, which remembers insertion order: the keys in the order
 they were first inserted, and the key-to-value map. Assigning to an
 existing key keeps its place; a new key goes to the end.
 */
module Dicts {

  datatype Dict<K, V> = Dict(keys: seq<K>, vals: map<K, V>)

  predicate Distinct<K(==)>(s: seq<K>) {
    forall i, j :: 0 <= i < j < |s| ==> s[i] != s[j]
  }

  /** The key order lists each key of the map exactly once. */
  ghost predicate Valid<K(!new), V>(d: Dict<K, V>) {
    Distinct(d.keys) &&
    (forall i :: 0 <= i < |d.keys| ==> d.keys[i] in d.vals) &&
    (forall k :: k in d.vals ==> k in d.keys)
  }

  function Empty<K(==,!new), V>(): (d: Dict<K, V>)
    ensures Valid(d) && |d.keys| == 0
  {
    Dict([], map[])
  }

  /** `d[k] = v`. */
  function Put<K(==,!new), V>(d: Dict<K, V>, k: K, v: V): (r: Dict<K, V>)
    requires Valid(d)
    ensures Valid(r)
  {
    Dict(if k in d.vals then d.keys else d.keys + [k], d.vals[k := v])
  }

  /** What `d[k] = v` does to a consistent dict: `k` holds `v`, every other key keeps its
      value, the old keys keep their order, and a new key goes last. */
  lemma PutStores<K(!new), V>(d: Dict<K, V>, k: K, v: V)
    requires Valid(d)
    ensures var r := Put(d, k, v);
            k in r.vals && r.vals[k] == v &&
            (forall k' :: k' in r.vals <==> k' in d.vals || k' == k) &&
            (forall k' :: k' in d.vals && k' != k ==> r.vals[k'] == d.vals[k']) &&
            d.keys <= r.keys && |r.keys| == if k in d.vals then |d.keys| else |d.keys| + 1
  {
  }

  /** `d.get(k, default)`: the value stored under `k`, or `default` for a missing key. */
  function GetOr<K(==,!new), V>(d: Dict<K, V>, k: K, default: V): V {
    if k in d.vals then d.vals[k] else default
  }

  /** The value of each key, in key order. */
  function Values<K(==,!new), V>(d: Dict<K, V>): (vs: seq<V>)
    requires Valid(d)
    ensures |vs| == |d.keys|
    ensures forall i :: 0 <= i < |d.keys| ==> vs[i] == d.vals[d.keys[i]]
  {
    seq(|d.keys|, i requires 0 <= i < |d.keys| => d.vals[d.keys[i]])
  }
}
