/** A Python `dict` with string keys: lookup by key, iteration in insertion order. */
module Dicts {

  /** The keys in insertion order, and the value of each key. */
  datatype Dict<V> = Dict(keys: seq<string>, values: map<string, V>)

  /** Keys listed once each, and exactly the keys that have a value. */
  ghost predicate Valid<V>(d: Dict<V>) {
    && (forall i, j :: 0 <= i < j < |d.keys| ==> d.keys[i] != d.keys[j])
    && (forall k :: k in d.keys <==> k in d.values)
  }

  function Empty<V>(): (d: Dict<V>)
    ensures Valid(d) && d.keys == []
  {
    Dict([], map[])
  }

  /** `d[k] = v`: a new key goes to the end, an existing key keeps its place. */
  function Put<V>(d: Dict<V>, k: string, v: V): (d': Dict<V>)
    requires Valid(d)
    ensures Valid(d')
    ensures d'.values == d.values[k := v]
    ensures k in d.values ==> d'.keys == d.keys
    ensures k !in d.values ==> d'.keys == d.keys + [k]
  {
    if k in d.values then Dict(d.keys, d.values[k := v]) else Dict(d.keys + [k], d.values[k := v])
  }
}
