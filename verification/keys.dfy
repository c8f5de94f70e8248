/**
 Lazily created graph vertices. Both builders keep a map from a vertex key
 (a variable name, or a literal) to its vertex and create the vertex on the
 first lookup of the key; the vertices of a graph are therefore the keys
 looked up, each once, in the order of their first lookup.
 */
module Keys {
  import opened OrderedSets

  /** `getVertex`: looks a key up, creating its vertex when it has none. */
  function AddKey<K(==)>(keys: seq<K>, k: K): (r: seq<K>)
    ensures Elems(r) == Elems(keys) + {k}
    ensures NoDup(keys) ==> NoDup(r)
    ensures |keys| <= |r| && r[..|keys|] == keys
  {
    if k in keys then keys else keys + [k]
  }

  /** A run of `getVertex` calls. */
  function AddKeys<K(==)>(keys: seq<K>, ks: seq<K>): (r: seq<K>)
    ensures Elems(r) == Elems(keys) + Elems(ks)
    ensures NoDup(keys) ==> NoDup(r)
    ensures |keys| <= |r| && r[..|keys|] == keys
    decreases |ks|
  {
    if ks == [] then keys
    else
      var next := AddKey(keys, ks[0]);
      var r := AddKeys(next, ks[1..]);
      assert Elems(ks) == {ks[0]} + Elems(ks[1..]);
      assert r[..|keys|] == r[..|next|][..|keys|];
      r
  }
}
