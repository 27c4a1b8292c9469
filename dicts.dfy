/**
 * A Python `dict`: a finite map together with the order in which its keys were
 * first inserted, which is the order in which Python iterates over it.
 */
module Dicts {

  datatype Dict<K(==), V> = Dict(keys: seq<K>, items: map<K, V>)
  {
    /** The keys are listed once each, and exactly the mapped keys are listed. */
    ghost predicate Valid()
    {
      && (forall i, j :: 0 <= i < j < |keys| ==> keys[i] != keys[j])
      && items.Keys == set k | k in keys
    }

    /** `d.get(k, default)`. */
    function Get(k: K, default: V): V
    {
      if k in items then items[k] else default
    }

    /** `d[k] = v`: a key already present keeps its place, a new key goes last. */
    function Put(k: K, v: V): (d: Dict<K, V>)
      requires Valid()
      ensures d.Valid()
      ensures d.items == items[k := v]
      ensures d.keys == if k in items then keys else keys + [k]
    {
      if k in items then Dict(keys, items[k := v]) else Dict(keys + [k], items[k := v])
    }

    /** The values of the listed keys, in order. */
    function ValuesOf(ks: seq<K>): (vs: seq<V>)
      requires forall k :: k in ks ==> k in items
      ensures |vs| == |ks|
      ensures forall i :: 0 <= i < |ks| ==> vs[i] == items[ks[i]]
    {
      if |ks| == 0 then [] else ValuesOf(ks[..|ks| - 1]) + [items[ks[|ks| - 1]]]
    }

    /** `d.values()`, in iteration order. */
    function Values(): (vs: seq<V>)
      requires Valid()
      ensures |vs| == |keys|
      ensures forall i :: 0 <= i < |keys| ==> vs[i] == items[keys[i]]
    {
      ValuesOf(keys)
    }
  }

  /** `{}`. */
  function Empty<K(==), V>(): (d: Dict<K, V>)
    ensures d.Valid() && d.keys == [] && d.items == map[]
  {
    Dict([], map[])
  }
}
