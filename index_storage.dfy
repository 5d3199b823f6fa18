/**
 The inverted-index storage that MapReduceIndex writes through, seen as a value.
 A storage maps each key to its value container; a container maps every input id
 that contributes under that key to the value it contributed. The storage's own
 operations `removeAllValues` and `addValue` are single-key steps; `RemoveAll` and
 `AddAll` are their closed forms over a whole key set or data map, which do not
 depend on the order in which the keys are visited.
 */
module IndexStorage {

  type Container<V> = map<int, V>
  type Storage<K(==), V> = map<K, Container<V>>

  /** The container under `key`; an absent key reads as an empty container. */
  function Read<K, V>(s: Storage<K, V>, key: K): Container<V>
  {
    if key in s then s[key] else map[]
  }

  /** `removeAllValues(key, id)`: drop `id`'s contribution under `key`;
      a container that is left without contributors is removed with its key. */
  function RemoveAllValues<K, V>(s: Storage<K, V>, key: K, id: int): Storage<K, V>
  {
    if key !in s then s
    else if s[key].Keys <= {id} then s - {key}
    else s[key := s[key] - {id}]
  }

  /** `addValue(key, id, v)`: record `v` as `id`'s contribution under `key`. */
  function AddValue<K, V>(s: Storage<K, V>, key: K, id: int, v: V): Storage<K, V>
  {
    s[key := Read(s, key)[id := v]]
  }

  /** `RemoveAllValues(·, k, id)` applied for every `k` in `keys`. */
  function RemoveAll<K, V>(s: Storage<K, V>, keys: set<K>, id: int): Storage<K, V>
  {
    map k | k in s && !(k in keys && s[k].Keys <= {id}) :: if k in keys then s[k] - {id} else s[k]
  }

  /** `AddValue(·, k, id, data[k])` applied for every key `k` of `data`. */
  function AddAll<K, V>(s: Storage<K, V>, data: map<K, V>, id: int): Storage<K, V>
  {
    map k | k in s.Keys + data.Keys :: if k in data then Read(s, k)[id := data[k]] else s[k]
  }

  /** The part of `m` whose keys lie in `ks`. */
  function Restrict<K, V>(m: map<K, V>, ks: set<K>): map<K, V>
  {
    map k | k in m && k in ks :: m[k]
  }

  /** What input `id` contributes to the storage: every key whose container lists
      `id`, mapped to the value `id` gave there. */
  function ContributionsOf<K, V>(s: Storage<K, V>, id: int): map<K, V>
  {
    map k | k in s && id in s[k] :: s[k][id]
  }

  /** No key is kept with a container that nobody contributes to. */
  ghost predicate NoEmptyContainers<K, V>(s: Storage<K, V>)
  {
    forall k :: k in s ==> s[k].Keys != {}
  }

  /** One more `removeAllValues` call extends the closed form by that key, so a loop
      that visits the keys one at a time computes `RemoveAll`, in any order. */
  lemma RemoveAllStep<K, V>(s: Storage<K, V>, done: set<K>, key: K, id: int)
    requires key !in done
    ensures RemoveAllValues(RemoveAll(s, done, id), key, id) == RemoveAll(s, done + {key}, id)
  {
  }

  /** One more `addValue` call for a fresh key extends the closed form by that pair. */
  lemma AddAllStep<K, V>(s: Storage<K, V>, data: map<K, V>, key: K, id: int, v: V)
    requires key !in data
    ensures AddValue(AddAll(s, data, id), key, id, v) == AddAll(s, data[key := v], id)
  {
  }

  /** Removing under no key at all leaves the storage as it was. */
  lemma RemoveNothing<K, V>(s: Storage<K, V>, id: int)
    ensures RemoveAll(s, {}, id) == s
  {
  }

  /** Restricting to a growing key set adds one pair at a time. */
  lemma RestrictStep<K, V>(m: map<K, V>, done: set<K>, key: K)
    requires key in m && key !in done
    ensures Restrict(m, done + {key}) == Restrict(m, done)[key := m[key]]
  {
  }

  /** Restricting to all of `m`'s keys gives `m` back. */
  lemma RestrictAll<K, V>(m: map<K, V>)
    ensures Restrict(m, m.Keys) == m
  {
  }
}
