/**
 * A Python dict keyed by document id. Iteration follows insertion order, and
 * assigning to a key that is already present keeps that key's original place.
 */
module OrderedMaps {
  import opened Seqs

  datatype OrderedMap<V> = OrderedMap(keys: seq<nat>, values: map<nat, V>) {

    /** The key list enumerates the map's keys, each once. */
    ghost predicate Valid() {
      && Distinct(keys)
      && forall k :: k in values <==> k in keys
    }

    /** `d[k] = v`. */
    function Put(k: nat, v: V): (r: OrderedMap<V>)
      requires Valid()
      ensures r.Valid()
      ensures r.values == values[k := v]
      ensures k in values ==> r.keys == keys
      ensures k !in values ==> r.keys == keys + [k]
    {
      if k in values then OrderedMap(keys, values[k := v])
      else OrderedMap(keys + [k], values[k := v])
    }
  }

  function Empty<V>(): (r: OrderedMap<V>)
    ensures r.Valid() && r.keys == []
  {
    OrderedMap([], map[])
  }
}
