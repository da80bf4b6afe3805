/**
 * Python's `dict`, which remembers the order in which keys were first
 * inserted: iteration (`keys()`, `items()`, `next(iter(...))`) follows that
 * order, and assigning to a key that is already present keeps its place.
 */
module Dicts {
  import opened Wrappers

  datatype Dict<K(==,!new), V> = Dict(keys: seq<K>, entries: map<K, V>) {

    /** Keys are listed once each, and exactly the keys of the map are listed. */
    ghost predicate Valid() {
      (forall i, j :: 0 <= i < j < |keys| ==> keys[i] != keys[j])
      && (forall k :: k in entries <==> k in keys)
    }

    /** Every listed key has an entry: what iterating over the keys and indexing needs. */
    ghost predicate Listed() {
      forall i :: 0 <= i < |keys| ==> keys[i] in entries
    }

    /** `d.get(k)`. */
    function Get(k: K): Option<V> {
      if k in entries then Some(entries[k]) else None
    }

    /** `d[k] = v`. */
    function Put(k: K, v: V): (r: Dict<K, V>)
      ensures forall k' :: r.Get(k') == if k' == k then Some(v) else Get(k')
      ensures Valid() ==> r.Valid() && r.keys == if k in keys then keys else keys + [k]
      ensures r.entries == entries[k := v]
    {
      if k in entries then Dict(keys, entries[k := v]) else Dict(keys + [k], entries[k := v])
    }

    /** The dictionary holding only the first n keys, as it was after n insertions of new keys. */
    function Take(n: nat): (r: Dict<K, V>)
      requires Valid() && n <= |keys|
      ensures r.Valid() && r.keys == keys[..n]
      ensures forall k :: k in r.entries ==> k in entries && r.entries[k] == entries[k]
    {
      Dict(keys[..n], map k | k in keys[..n] :: entries[k])
    }
  }

  function Empty<K(==,!new), V>(): (r: Dict<K, V>)
    ensures r.Valid() && r.keys == []
    ensures forall k :: r.Get(k) == None
  {
    Dict([], map[])
  }

  /** The prefix of no keys is the empty dictionary. */
  lemma TakeZero<K(!new), V>(d: Dict<K, V>)
    requires d.Valid()
    ensures d.Take(0) == Empty()
  {
    assert d.Take(0).keys == [];
    assert d.Take(0).entries == map[];
  }

  /** Assigning a key twice keeps only the second value. */
  lemma PutPut<K(!new), V>(d: Dict<K, V>, k: K, a: V, b: V)
    ensures d.Put(k, a).Put(k, b) == d.Put(k, b)
  {
    assert d.entries[k := a][k := b] == d.entries[k := b];
  }

  /** Inserting the next key of a dictionary into its prefix gives the next prefix. */
  lemma TakeNext<K(!new), V>(d: Dict<K, V>, n: nat)
    requires d.Valid() && n < |d.keys|
    ensures d.keys[n] in d.entries
    ensures d.Take(n).Put(d.keys[n], d.entries[d.keys[n]]) == d.Take(n + 1)
  {
    var k := d.keys[n];
    assert forall i :: 0 <= i < n ==> d.keys[..n][i] != k;
    assert k !in d.keys[..n];
    assert d.keys[..n + 1] == d.keys[..n] + [k];
    var lhs := d.Take(n).Put(k, d.entries[k]);
    assert lhs.keys == d.Take(n + 1).keys;
    PrefixMapNext(d.entries, d.keys[..n], k);
  }

  /** The map over a list of keys and one more key is the map over the list, updated at that key. */
  lemma PrefixMapNext<K(!new), V>(m: map<K, V>, ks: seq<K>, k: K)
    requires k in m && forall j :: j in ks ==> j in m
    ensures (map j | j in ks :: m[j])[k := m[k]] == map j | j in ks + [k] :: m[j]
  {
  }

  /** The prefix of all keys is the dictionary itself. */
  lemma TakeAll<K(!new), V>(d: Dict<K, V>)
    requires d.Valid()
    ensures d.Take(|d.keys|) == d
  {
    assert d.keys[..|d.keys|] == d.keys;
    assert d.Take(|d.keys|).entries == d.entries;
  }

  /** The position of the first occurrence of x in s. */
  function IndexOf<K(==)>(s: seq<K>, x: K): (i: nat)
    requires x in s
    ensures i < |s| && s[i] == x && x !in s[..i]
  {
    if s[0] == x then 0 else assert s[1..][..IndexOf(s[1..], x)] == s[1..1 + IndexOf(s[1..], x)]; 1 + IndexOf(s[1..], x)
  }

  /**
   * The key order after keys, when names are inserted in turn: keys, then each
   * name not already present, at its first insertion.
   */
  function Firsts<K(==)>(keys: seq<K>, names: seq<K>): seq<K>
    decreases |names|
  {
    if names == [] then keys
    else Firsts(if names[0] in keys then keys else keys + [names[0]], names[1..])
  }

  /**
   * The order Firsts describes: keys stay where they were, every name is
   * listed, and the keys after them are new names, ordered by where each first
   * occurs among the names.
   */
  lemma {:induction false} FirstsMeaning<K>(keys: seq<K>, names: seq<K>)
    ensures keys <= Firsts(keys, names)
    ensures forall x :: x in Firsts(keys, names) <==> x in keys || x in names
    ensures forall i :: |keys| <= i < |Firsts(keys, names)| ==> Firsts(keys, names)[i] in names && Firsts(keys, names)[i] !in keys
    ensures forall i, j :: |keys| <= i < j < |Firsts(keys, names)| ==>
      IndexOf(names, Firsts(keys, names)[i]) < IndexOf(names, Firsts(keys, names)[j])
    decreases |names|
  {
    if names != [] {
      var n := names[0];
      var rest := names[1..];
      var keys' := if n in keys then keys else keys + [n];
      var r := Firsts(keys', rest);
      assert r == Firsts(keys, names);
      FirstsMeaning(keys', rest);
      assert names == [n] + rest;
      forall i | |keys| <= i < |r|
        ensures r[i] in names && r[i] !in keys
      {
        if i >= |keys'| {
          assert r[i] in rest && r[i] !in keys';
        } else {
          assert r[i] == keys'[i] == n;
        }
      }
      forall i, j | |keys| <= i < j < |r|
        ensures IndexOf(names, r[i]) < IndexOf(names, r[j])
      {
        assert r[j] != n && r[j] in rest;
        IndexOfCons(n, rest, r[j]);
        if i >= |keys'| {
          assert r[i] != n && r[i] in rest;
          IndexOfCons(n, rest, r[i]);
        } else {
          assert r[i] == n;
        }
      }
    }
  }

  lemma IndexOfCons<K>(n: K, rest: seq<K>, x: K)
    requires x != n && x in rest
    ensures IndexOf([n] + rest, x) == 1 + IndexOf(rest, x)
  {
    assert ([n] + rest)[1..] == rest;
  }
}
