/** Maps that remember the order in which keys were first inserted: a JavaScript
    `Map` or plain object with text keys, and the Go `orderedmap.OrderedMap`.
    Writing an existing key keeps its position. */
module OrderedMaps {
  import opened Wrappers
  import opened Graphs

  datatype OMap<K(==,!new), V> = OMap(keys: seq<K>, m: map<K, V>) {

    /** Every key is listed once and the listing is exactly the key set. */
    ghost predicate Valid() {
      Distinct(keys) && forall k :: k in m <==> k in keys
    }

    function Get(k: K): (r: Option<V>)
      ensures r.Some? <==> k in m
      ensures r.Some? ==> r.value == m[k]
    {
      if k in m then Some(m[k]) else None
    }

    /** `map.set(k, v)`: a new key goes last, an existing one keeps its place. */
    function Set(k: K, v: V): (r: OMap<K, V>)
      ensures Valid() ==> r.Valid()
      ensures r.m == m[k := v]
      ensures r.keys == if k in m then keys else keys + [k]
    {
      if k in m then OMap(keys, m[k := v]) else OMap(keys + [k], m[k := v])
    }

    /** The values in key order (`map.values()`, `Object.values`). */
    function Values(): (r: seq<V>)
      requires Valid()
      ensures |r| == |keys|
      ensures forall i :: 0 <= i < |keys| ==> r[i] == m[keys[i]]
    {
      seq(|keys|, i requires 0 <= i < |keys| => m[keys[i]])
    }

    /** The values listed are exactly the values stored. */
    lemma ValuesIn()
      requires Valid()
      ensures forall v :: v in Values() <==> exists k :: k in m && m[k] == v
    {
      var r := Values();
      forall v | v in r ensures exists k :: k in m && m[k] == v {
        var i :| 0 <= i < |r| && r[i] == v;
        assert keys[i] in m;
      }
      forall k | k in m ensures m[k] in r {
        var i :| 0 <= i < |keys| && keys[i] == k;
        assert r[i] == m[k];
      }
    }
  }

  function EmptyMap<K(==,!new), V>(): (r: OMap<K, V>)
    ensures r.Valid() && r.keys == [] && r.m == map[]
  {
    OMap([], map[])
  }
}
