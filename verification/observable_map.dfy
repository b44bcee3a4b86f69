/**
 * `ObservableMap` of utils/ObservableMap.ts: a `Map` that calls an optional
 * `onSet` callback after every `set` and an optional `onDelete` callback
 * after a `delete` that removed a truthy value. The callbacks are modelled
 * by the log of the calls they receive.
 */
module ObservableMap {
  import opened Common

  datatype Call<K, V> = OnSet(key: K, value: V) | OnDelete(key: K, value: V)

  datatype ObservableMap<K, V> = ObservableMap(
    entries: map<K, V>,
    hasOnSet: bool,     // an `onSet` callback was given to the constructor
    hasOnDelete: bool,  // an `onDelete` callback was given to the constructor
    calls: seq<Call<K, V>>)

  /** `new ObservableMap(onSet?, onDelete?)`. */
  function New<K, V>(hasOnSet: bool, hasOnDelete: bool): (m: ObservableMap<K, V>)
    ensures m.entries == map[] && m.calls == []
    ensures m.hasOnSet == hasOnSet && m.hasOnDelete == hasOnDelete
  {
    ObservableMap(map[], hasOnSet, hasOnDelete, [])
  }

  /** `Map.prototype.get`. */
  function Get<K, V>(m: ObservableMap<K, V>, key: K): (r: Option<V>)
    ensures r.Some? <==> key in m.entries
    ensures r.Some? ==> r.value == m.entries[key]
  {
    if key in m.entries then Some(m.entries[key]) else None
  }

  /** `set(key, value)`: store, then call `onSet(key, value)` if there is one. */
  function Set<K(!new), V>(m: ObservableMap<K, V>, key: K, value: V): (m': ObservableMap<K, V>)
    ensures Get(m', key) == Some(value)
    ensures forall k :: k != key ==> Get(m', k) == Get(m, k)
    ensures m'.entries.Keys == m.entries.Keys + {key}
    ensures m'.hasOnSet == m.hasOnSet && m'.hasOnDelete == m.hasOnDelete
    ensures m'.calls == m.calls + (if m.hasOnSet then [OnSet(key, value)] else [])
  {
    m.(entries := m.entries[key := value],
       calls := if m.hasOnSet then m.calls + [OnSet(key, value)] else m.calls)
  }

  /**
   * `delete(key)`: remove, report whether the key was present, and call
   * `onDelete(key, value)` only when it was and its value is truthy.
   */
  function Delete<K(!new), V>(m: ObservableMap<K, V>, key: K, truthy: V -> bool): (res: (ObservableMap<K, V>, bool))
    ensures res.1 <==> key in m.entries
    ensures Get(res.0, key) == None
    ensures forall k :: k != key ==> Get(res.0, k) == Get(m, k)
    ensures res.0.entries.Keys == m.entries.Keys - {key}
    ensures res.0.hasOnSet == m.hasOnSet && res.0.hasOnDelete == m.hasOnDelete
    ensures key in m.entries && truthy(m.entries[key]) && m.hasOnDelete ==>
              res.0.calls == m.calls + [OnDelete(key, m.entries[key])]
    ensures !(key in m.entries && truthy(m.entries[key]) && m.hasOnDelete) ==> res.0.calls == m.calls
  {
    var value := Get(m, key);
    var removed := key in m.entries;
    var m' := m.(entries := m.entries - {key});
    if removed && truthy(value.value) && m.hasOnDelete then
      (m'.(calls := m.calls + [OnDelete(key, value.value)]), true)
    else
      (m', removed)
  }

  /** After `set(k, v)`, deleting `k` returns true and fires `onDelete(k, v)` exactly when `v` is truthy. */
  lemma SetThenDelete<K(!new), V>(m: ObservableMap<K, V>, key: K, value: V, truthy: V -> bool)
    requires m.hasOnDelete && !m.hasOnSet
    ensures var res := Delete(Set(m, key, value), key, truthy);
      && res.1
      && res.0.entries == m.entries - {key}
      && (res.0.calls == m.calls + [OnDelete(key, value)] <==> truthy(value))
  {
    var res := Delete(Set(m, key, value), key, truthy);
    if !truthy(value) {
      assert res.0.calls == m.calls;
      assert |res.0.calls| != |m.calls + [OnDelete(key, value)]|;
    }
  }

  /** Deleting an absent key changes nothing at all. */
  lemma DeleteAbsentIsNoOp<K(!new), V>(m: ObservableMap<K, V>, key: K, truthy: V -> bool)
    requires key !in m.entries
    ensures Delete(m, key, truthy) == (m, false)
  {
    assert m.entries - {key} == m.entries;
  }
}
