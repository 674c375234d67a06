/**
 * Python `dict`s with their insertion order: a key sequence without
 * repetitions next to the key-to-value map.
 */
module OrderedMaps {

  datatype OrderedMap<K(==,!new), V> = OrderedMap(keys: seq<K>, values: map<K, V>) {

    /** Keys are listed once each, and exactly the keys of the map are listed. */
    ghost predicate Valid() {
      && (forall i, j :: 0 <= i < j < |keys| ==> keys[i] != keys[j])
      && (forall k :: k in values <==> k in keys)
    }

    /** Python's `len(d)`. */
    function Size(): nat {
      |keys|
    }
  }

  /** The empty dict `{}`. */
  function Empty<K(==,!new), V>(): (m: OrderedMap<K, V>)
    ensures m.Valid() && m.keys == []
  {
    OrderedMap([], map[])
  }

  /**
   * Python's `d[k] = v`: a key already present keeps its position and takes
   * the new value; a new key is appended at the end.
   */
  function Put<K(==,!new), V>(m: OrderedMap<K, V>, k: K, v: V): (r: OrderedMap<K, V>)
    requires m.Valid()
    ensures r.Valid()
    ensures k in r.values && r.values[k] == v
    ensures forall k' :: k' != k ==> (k' in r.values <==> k' in m.values)
    ensures forall k' :: k' != k && k' in m.values ==> r.values[k'] == m.values[k']
    ensures k in m.values ==> r.keys == m.keys
    ensures k !in m.values ==> r.keys == m.keys + [k]
  {
    if k in m.values then OrderedMap(m.keys, m.values[k := v])
    else OrderedMap(m.keys + [k], m.values[k := v])
  }
}
