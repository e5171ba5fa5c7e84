/** JavaScript `Map` semantics: a finite map that remembers the order in which
    keys were first inserted. Setting a key that is already present replaces
    its value and keeps its position. */
module OrderedMaps {

  import opened Protocol

  datatype OMap<K, V> = OMap(keys: seq<K>, entries: map<K, V>)

  /** The keys list holds each key of the map exactly once. */
  ghost predicate Wf<K(!new), V>(m: OMap<K, V>)
  {
    && (forall k :: k in m.entries <==> k in m.keys)
    && (forall i, j :: 0 <= i < j < |m.keys| ==> m.keys[i] != m.keys[j])
  }

  function Empty<K(!new), V>(): (m: OMap<K, V>)
    ensures Wf(m) && m.keys == [] && m.entries == map[]
  {
    OMap([], map[])
  }

  /** `Map.prototype.set`. */
  function Put<K(!new), V>(m: OMap<K, V>, k: K, v: V): (r: OMap<K, V>)
    ensures Wf(m) ==> Wf(r)
    ensures r.entries == m.entries[k := v]
    ensures k in m.entries ==> r.keys == m.keys
    ensures k !in m.entries ==> r.keys == m.keys + [k]
  {
    if k in m.entries then OMap(m.keys, m.entries[k := v])
    else OMap(m.keys + [k], m.entries[k := v])
  }

  /** `Map.prototype.get`. */
  function Get<K, V>(m: OMap<K, V>, k: K): (r: Option<V>)
    ensures r.Some? <==> k in m.entries
    ensures r.Some? ==> r.value == m.entries[k]
  {
    if k in m.entries then Some(m.entries[k]) else None
  }

  /** After setting a key, reading it back gives the value just stored, every
      other key reads as before, and every key already present keeps its
      position in the iteration order. */
  lemma PutThenGet<K(!new), V>(m: OMap<K, V>, k: K, v: V, other: K)
    requires Wf(m)
    ensures Get(Put(m, k, v), k) == Some(v)
    ensures other != k ==> Get(Put(m, k, v), other) == Get(m, other)
    ensures forall i :: 0 <= i < |m.keys| ==> Put(m, k, v).keys[i] == m.keys[i]
  {
  }
}
