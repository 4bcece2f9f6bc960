/**
 * Python's built-in dict keeps its keys in insertion order, and the exam
 * optimizer depends on that order: the first item of the form is the
 * reference removal, candidate scores are listed in grid order, and the
 * blueprint check walks domains in the order it first meets them.
 * A `Dict` is that ordered view: the key order plus the key-to-value map.
 */
module Dicts {

  /** No element occurs twice. */
  predicate Distinct<T(==)>(s: seq<T>)
  {
    forall i, j :: 0 <= i < j < |s| ==> s[i] != s[j]
  }

  datatype Dict<K(==), V> = Dict(keys: seq<K>, values: map<K, V>)
  {
    /** Every key of the map is listed exactly once, and nothing else is listed. */
    predicate Valid()
    {
      Distinct(keys) && (forall k :: k in keys ==> k in values) && (forall k :: k in values ==> k in keys)
    }

    /** `d[k] = v`: an existing key keeps its place, a new key goes last. */
    function Put(k: K, v: V): (d: Dict<K, V>)
      requires Valid()
      ensures d.Valid()
      ensures d.values == values[k := v]
      ensures k in values ==> d.keys == keys
      ensures k !in values ==> d.keys == keys + [k]
    {
      if k in values then Dict(keys, values[k := v]) else Dict(keys + [k], values[k := v])
    }
  }
}
