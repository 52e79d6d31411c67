/** Insertion-ordered dictionaries, the model of Python's `dict`.

    A Python dict remembers the order in which its keys were first inserted;
    assigning to a key that is already present changes its value and keeps
    its place. `keys` is that order, `entries` the key/value association. */
module Dicts {

  datatype Dict<K(==), V> = Dict(keys: seq<K>, entries: map<K, V>)

  /** The order lists each stored key exactly once, and nothing else: the
      last key of the order is stored, and the rest of the order lists the
      other stored keys. */
  ghost predicate Lists<K, V>(keys: seq<K>, entries: map<K, V>)
    decreases |keys|
  {
    if keys == [] then entries == map[]
    else
      var k := keys[|keys| - 1];
      k in entries && Lists(keys[..|keys| - 1], entries - {k})
  }

  /** A well formed dict: its order lists exactly its stored keys. */
  ghost predicate Valid<K, V>(d: Dict<K, V>) {
    Lists(d.keys, d.entries)
  }

  /** `{}` */
  function Empty<K(==), V>(): (d: Dict<K, V>)
    ensures Valid(d) && d.keys == [] && d.entries == map[]
  {
    Dict([], map[])
  }

  /** `d[k] = v`: a new key goes to the end of the order, an old one keeps its place. */
  function Put<K(==), V>(d: Dict<K, V>, k: K, v: V): (r: Dict<K, V>)
    ensures r.entries == d.entries[k := v]
    ensures k in d.entries ==> r.keys == d.keys
    ensures k !in d.entries ==> r.keys == d.keys + [k]
  {
    if k in d.entries then Dict(d.keys, d.entries[k := v])
    else Dict(d.keys + [k], d.entries[k := v])
  }

  /** `d[k] = v` changes nothing but the value under k: every other key keeps
      its value and its place in the order, and at most one key is added. */
  lemma PutFrame<K, V>(d: Dict<K, V>, k: K, v: V, j: K)
    ensures k in Put(d, k, v).entries && Put(d, k, v).entries[k] == v
    ensures j != k ==> (j in Put(d, k, v).entries <==> j in d.entries)
    ensures j != k && j in d.entries ==> Put(d, k, v).entries[j] == d.entries[j]
    ensures |d.keys| <= |Put(d, k, v).keys| <= |d.keys| + 1
    ensures Put(d, k, v).keys[..|d.keys|] == d.keys
  {
  }

  /** Whether an order lists a map's keys depends only on those keys. */
  lemma {:induction false} ListsSameKeys<K, V>(keys: seq<K>, m1: map<K, V>, m2: map<K, V>)
    requires Lists(keys, m1) && m1.Keys == m2.Keys
    ensures Lists(keys, m2)
    decreases |keys|
  {
    if keys != [] {
      var k := keys[|keys| - 1];
      ListsSameKeys(keys[..|keys| - 1], m1 - {k}, m2 - {k});
    }
  }

  /** A key is stored exactly when the order lists it. */
  lemma {:induction false} ListsMembers<K, V>(keys: seq<K>, entries: map<K, V>, x: K)
    requires Lists(keys, entries)
    ensures x in entries <==> x in keys
    decreases |keys|
  {
    if keys != [] {
      var k := keys[|keys| - 1];
      ListsMembers(keys[..|keys| - 1], entries - {k}, x);
      assert keys == keys[..|keys| - 1] + [k];
    }
  }

  /** The order is as long as the dict is large. */
  lemma {:induction false} ListsSize<K, V>(keys: seq<K>, entries: map<K, V>)
    requires Lists(keys, entries)
    ensures |entries| == |keys|
    decreases |keys|
  {
    if keys != [] {
      var k := keys[|keys| - 1];
      ListsSize(keys[..|keys| - 1], entries - {k});
    }
  }

  /** The order of a well formed dict lists no key twice. */
  lemma {:induction false} ListsDistinct<K, V>(keys: seq<K>, entries: map<K, V>, i: nat, j: nat)
    requires Lists(keys, entries) && i < j < |keys|
    ensures keys[i] != keys[j]
    decreases |keys|
  {
    var k := keys[|keys| - 1];
    var init := keys[..|keys| - 1];
    if j < |keys| - 1 {
      ListsDistinct(init, entries - {k}, i, j);
    } else {
      ListsMembers(init, entries - {k}, keys[i]);
      assert init[i] == keys[i];
    }
  }

  /** Assignment keeps a dict well formed. */
  lemma PutValid<K, V>(d: Dict<K, V>, k: K, v: V)
    requires Valid(d)
    ensures Valid(Put(d, k, v))
  {
    if k in d.entries {
      ListsSameKeys(d.keys, d.entries, d.entries[k := v]);
    } else {
      var keys := d.keys + [k];
      assert keys[..|keys| - 1] == d.keys;
      assert d.entries[k := v] - {k} == d.entries;
    }
  }

  /** A stored key of a well formed dict has its place in the order. */
  lemma KeysListed<K, V>(d: Dict<K, V>, k: K)
    requires Valid(d)
    ensures k in d.entries <==> k in d.keys
  {
    ListsMembers(d.keys, d.entries, k);
  }

  /** Every key in the order of a well formed dict is stored. */
  lemma KeyStored<K, V>(d: Dict<K, V>, i: nat)
    requires Valid(d) && i < |d.keys|
    ensures d.keys[i] in d.entries
  {
    ListsMembers(d.keys, d.entries, d.keys[i]);
  }

  /** A well formed dict has as many keys as its order is long. */
  lemma SizeIsKeyCount<K, V>(d: Dict<K, V>)
    requires Valid(d)
    ensures |d.entries| == |d.keys|
  {
    ListsSize(d.keys, d.entries);
  }

  /** `d.get(k, default)`, which is also what a `defaultdict` reads for a missing key. */
  function GetOr<K(==), V>(d: Dict<K, V>, k: K, default: V): (v: V)
    ensures k in d.entries ==> v == d.entries[k]
    ensures k !in d.entries ==> v == default
  {
    if k in d.entries then d.entries[k] else default
  }

  /** `m.get(k, default)` on a plain map. */
  function MapGetOr<K, V>(m: map<K, V>, k: K, default: V): (v: V)
    ensures k in m ==> v == m[k]
    ensures k !in m ==> v == default
  {
    if k in m then m[k] else default
  }
}
