/**
 The incremental map-reduce index. An index keeps an inverted storage
 (key -> container of per-input contributions) in step with a forward index
 (input id -> the keys that input produced on its last update). Re-indexing an
 input removes its contribution under every key of its forward entry, adds every
 pair the indexer now produces, and then records the new key set, or deletes the
 forward entry when the indexer produced nothing.
 */
module MapReduce {
  import opened IndexStorage

  /** Input content; `None` stands for the `null` content of a deleted input. */
  datatype Option<T> = None | Some(value: T)

  /** What a call that may meet a storage exception reports to its caller. */
  datatype Outcome = Done | StorageFailed

  /** The forward index: input id -> keys that input produced last time. */
  type Forward<K(==)> = map<int, set<K>>

  /** Both maps the index maintains, as one value. */
  datatype Snapshot<K(==), V> = Snapshot(storage: Storage<K, V>, inputs: Forward<K>)

  /** `mapNew`: the indexer's result for present content, the empty map for `null`. */
  function MapNew<K, V, I>(indexer: I -> map<K, V>, content: Option<I>): (r: map<K, V>)
    ensures content.None? ==> r == map[]
    ensures content.Some? ==> r == indexer(content.value)
  {
    if content.Some? then indexer(content.value) else map[]
  }

  /** A missing forward entry reads as the empty old key set. */
  function OldKeys<K>(inputs: Forward<K>, id: int): (r: set<K>)
    ensures id !in inputs ==> r == {}
    ensures id in inputs ==> r == inputs[id]
  {
    if id in inputs then inputs[id] else {}
  }

  /** The forward index after re-indexing `id` to `data`: the entry holds exactly the
      new key set, or is absent when there are no new keys; other entries stay. */
  function NextForward<K, V>(inputs: Forward<K>, id: int, data: map<K, V>): (r: Forward<K>)
    ensures id in r <==> data != map[]
    ensures id in r ==> r[id] == data.Keys
    ensures forall j :: j != id ==> (j in r <==> j in inputs)
    ensures forall j :: j != id && j in r ==> r[j] == inputs[j]
  {
    if |data.Keys| > 0 then inputs[id := data.Keys] else inputs - {id}
  }

  /** The storage after `updateWithMap(id, data, oldKeys)`: first every old key loses
      `id`'s contribution, then every new pair is added. */
  function Reindexed<K, V>(s: Storage<K, V>, id: int, oldKeys: set<K>, data: map<K, V>): Storage<K, V>
  {
    AddAll(RemoveAll(s, oldKeys, id), data, id)
  }

  /** `update(id, content)` once the indexer has produced `data`. */
  function Reindex<K, V>(st: Snapshot<K, V>, id: int, data: map<K, V>): Snapshot<K, V>
  {
    Snapshot(Reindexed(st.storage, id, OldKeys(st.inputs, id), data), NextForward(st.inputs, id, data))
  }

  /** Every contribution of input `id` in storage sits under a key of `id`'s forward entry. */
  ghost predicate Tracked<K, V>(st: Snapshot<K, V>, id: int)
  {
    forall k :: k in st.storage && id in st.storage[k] ==> id in st.inputs && k in st.inputs[id]
  }

  /** `Tracked` for every input: the invariant that makes the remove-then-add diff exact. */
  ghost predicate ContributionsTracked<K, V>(st: Snapshot<K, V>)
  {
    forall id :: Tracked(st, id)
  }

  /** Whatever the old keys were, each new key carries exactly the new value from `id`,
      and each old key that is not new carries nothing from `id`. */
  lemma ReindexedStoresNewValues<K, V>(s: Storage<K, V>, id: int, oldKeys: set<K>, data: map<K, V>)
    ensures forall k :: k in data ==> k in Reindexed(s, id, oldKeys, data) && id in Reindexed(s, id, oldKeys, data)[k]
    ensures forall k :: k in data ==> Reindexed(s, id, oldKeys, data)[k][id] == data[k]
    ensures forall k :: k in oldKeys && k !in data && k in Reindexed(s, id, oldKeys, data) ==> id !in Reindexed(s, id, oldKeys, data)[k]
  {
  }

  /** No stale contributor: when `id` was tracked, after re-indexing the contributions
      of `id` are exactly the new data. */
  lemma ReindexContributionsExact<K, V>(st: Snapshot<K, V>, id: int, data: map<K, V>)
    requires Tracked(st, id)
    ensures ContributionsOf(Reindex(st, id, data).storage, id) == data
  {
    var s := st.storage;
    var oldKeys := OldKeys(st.inputs, id);
    var t := Reindex(st, id, data).storage;
    var c := ContributionsOf(t, id);
    ReindexedStoresNewValues(s, id, oldKeys, data);
    forall k | k in c ensures k in data {
    }
  }

  /** Re-indexing `id` leaves the contributions of every other input unchanged. */
  lemma ReindexKeepsOthers<K, V>(s: Storage<K, V>, id: int, oldKeys: set<K>, data: map<K, V>, j: int)
    requires j != id
    ensures ContributionsOf(Reindexed(s, id, oldKeys, data), j) == ContributionsOf(s, j)
  {
  }

  /** Re-indexing a tracked input leaves it tracked: its contributions now sit under
      exactly its new forward entry. */
  lemma ReindexKeepsInputTracked<K, V>(st: Snapshot<K, V>, id: int, data: map<K, V>)
    requires Tracked(st, id)
    ensures Tracked(Reindex(st, id, data), id)
  {
  }

  /** Re-indexing keeps the invariant that every contribution is tracked. */
  lemma ReindexPreservesTracking<K, V>(st: Snapshot<K, V>, id: int, data: map<K, V>)
    requires ContributionsTracked(st)
    ensures ContributionsTracked(Reindex(st, id, data))
  {
    var st' := Reindex(st, id, data);
    forall j ensures Tracked(st', j) {
      if j == id {
        ReindexKeepsInputTracked(st, id, data);
      } else {
        forall k | k in st'.storage && j in st'.storage[k] ensures j in st'.inputs && k in st'.inputs[j] {
          ReindexKeepsOthers(st.storage, id, OldKeys(st.inputs, id), data, j);
          assert k in ContributionsOf(st'.storage, j);
          assert k in ContributionsOf(st.storage, j);
          assert Tracked(st, j);
        }
      }
    }
  }

  /** Re-indexing never leaves a key with an empty container behind. */
  lemma ReindexKeepsContainersNonEmpty<K, V>(s: Storage<K, V>, id: int, oldKeys: set<K>, data: map<K, V>)
    requires NoEmptyContainers(s)
    ensures NoEmptyContainers(Reindexed(s, id, oldKeys, data))
  {
    var r := RemoveAll(s, oldKeys, id);
    var t := Reindexed(s, id, oldKeys, data);
    forall k | k in t ensures t[k].Keys != {} {
      if k in data {
        assert id in t[k];
      } else {
        assert k in r;
        if k in oldKeys {
          assert t[k].Keys == s[k].Keys - {id};
        } else {
          assert s[k].Keys != {};
        }
      }
    }
  }

  /** `update(id, null)`: every contribution of a tracked `id` is gone and its forward
      entry is deleted. */
  lemma UpdateWithNullRemoves<K, V, I>(indexer: I -> map<K, V>, st: Snapshot<K, V>, id: int)
    requires Tracked(st, id)
    ensures ContributionsOf(Reindex(st, id, MapNew(indexer, None)).storage, id) == map[]
    ensures id !in Reindex(st, id, MapNew(indexer, None)).inputs
  {
  }

  /** The first update of an input (no forward entry yet) only adds. */
  lemma FirstUpdateOnlyAdds<K, V>(st: Snapshot<K, V>, id: int, data: map<K, V>)
    requires id !in st.inputs
    ensures Reindex(st, id, data).storage == AddAll(st.storage, data, id)
  {
    RemoveNothing(st.storage, id);
  }

  /** Clearing and re-adding data that is already stored exactly as given changes nothing. */
  lemma ReaddingStoredDataIsNoOp<K, V>(s: Storage<K, V>, id: int, data: map<K, V>)
    requires forall k :: k in data ==> k in s && id in s[k] && s[k][id] == data[k]
    ensures Reindexed(s, id, data.Keys, data) == s
  {
    var r := RemoveAll(s, data.Keys, id);
    var t := Reindexed(s, id, data.Keys, data);
    forall k | k in s ensures k in t && t[k] == s[k] {
      if k in data {
        assert Read(r, k) == s[k] - {id};
        assert Read(r, k)[id := data[k]] == s[k];
      }
    }
    assert t.Keys == s.Keys;
  }

  /** Once `id`'s forward entry holds `data`'s keys, re-indexing to `data` again
      leaves the storage as it is. */
  lemma SecondReindexKeepsStorage<K, V>(st: Snapshot<K, V>, id: int, data: map<K, V>)
    ensures Reindex(Reindex(st, id, data), id, data).storage == Reindex(st, id, data).storage
  {
    var once := Reindex(st, id, data);
    ReindexedStoresNewValues(st.storage, id, OldKeys(st.inputs, id), data);
    assert OldKeys(once.inputs, id) == data.Keys;
    ReaddingStoredDataIsNoOp(once.storage, id, data);
  }

  /** Recording the same key set twice leaves the forward index as once. */
  lemma SecondForwardUpdateKeepsEntry<K, V>(inputs: Forward<K>, id: int, data: map<K, V>)
    ensures NextForward(NextForward(inputs, id, data), id, data) == NextForward(inputs, id, data)
  {
  }

  /** Re-indexing `id` twice with the same data gives the state of doing it once. */
  lemma ReindexIdempotent<K, V>(st: Snapshot<K, V>, id: int, data: map<K, V>)
    ensures Reindex(Reindex(st, id, data), id, data) == Reindex(st, id, data)
  {
    SecondReindexKeepsStorage(st, id, data);
    SecondForwardUpdateKeepsEntry(st.inputs, id, data);
  }

  /** The state after a run of updates of one input, applied first to last. */
  function Replay<K, V>(st: Snapshot<K, V>, id: int, runs: seq<map<K, V>>): Snapshot<K, V>
    decreases |runs|
  {
    if runs == [] then st else Reindex(Replay(st, id, runs[..|runs| - 1]), id, runs[|runs| - 1])
  }

  /** A run of updates of one input keeps every contribution tracked. */
  lemma {:induction false} ReplayKeepsTracking<K, V>(st: Snapshot<K, V>, id: int, runs: seq<map<K, V>>)
    requires ContributionsTracked(st)
    ensures ContributionsTracked(Replay(st, id, runs))
    decreases |runs|
  {
    if runs != [] {
      ReplayKeepsTracking(st, id, runs[..|runs| - 1]);
      ReindexPreservesTracking(Replay(st, id, runs[..|runs| - 1]), id, runs[|runs| - 1]);
    }
  }

  /** A run of updates of a tracked input leaves that input tracked. */
  lemma {:induction false} ReplayKeepsInputTracked<K, V>(st: Snapshot<K, V>, id: int, runs: seq<map<K, V>>)
    requires Tracked(st, id)
    ensures Tracked(Replay(st, id, runs), id)
    decreases |runs|
  {
    if runs != [] {
      ReplayKeepsInputTracked(st, id, runs[..|runs| - 1]);
      ReindexKeepsInputTracked(Replay(st, id, runs[..|runs| - 1]), id, runs[|runs| - 1]);
    }
  }

  /** After any non-empty run of updates of one input, starting with that input
      tracked, it contributes exactly what its last update produced, and its forward
      entry exists iff that update produced something. */
  lemma ReplayMirrorsLastUpdate<K, V>(st: Snapshot<K, V>, id: int, runs: seq<map<K, V>>)
    requires Tracked(st, id) && |runs| > 0
    ensures ContributionsOf(Replay(st, id, runs).storage, id) == runs[|runs| - 1]
    ensures id in Replay(st, id, runs).inputs <==> runs[|runs| - 1] != map[]
  {
    var before := Replay(st, id, runs[..|runs| - 1]);
    ReplayKeepsInputTracked(st, id, runs[..|runs| - 1]);
    ReindexContributionsExact(before, id, runs[|runs| - 1]);
  }

  /** The index. The storage is handed in at construction; the forward index is
      attached later and must be attached before `Update` is called. */
  class MapReduceIndex<K(==), V, I> {
    const indexer: I -> map<K, V>
    var storage: Storage<K, V>
    var inputsIndex: Forward<K>
    var hasInputsIndex: bool
    var flushRequested: bool

    ghost function State(): Snapshot<K, V>
      reads this`storage, this`inputsIndex
    {
      Snapshot(storage, inputsIndex)
    }

    constructor (indexer: I -> map<K, V>, storage: Storage<K, V>)
      ensures this.indexer == indexer && this.storage == storage
      ensures !hasInputsIndex && !flushRequested
    {
      this.indexer := indexer;
      this.storage := storage;
      inputsIndex := map[];
      hasInputsIndex := false;
      flushRequested := false;
    }

    method SetInputIdToDataKeysIndex(metaIndex: Forward<K>)
      modifies this`inputsIndex, this`hasInputsIndex
      ensures inputsIndex == metaIndex && hasInputsIndex
    {
      inputsIndex := metaIndex;
      hasInputsIndex := true;
    }

    /** Stands for re-arming the flush alarm. */
    method ScheduleFlush()
      modifies this`flushRequested
      ensures flushRequested
    {
      flushRequested := true;
    }

    /** Empties the storage; the forward index is left as it is. A failure of the
        storage's own clear is logged and swallowed, leaving the storage as it was. */
    method Clear(storageFails: bool)
      modifies this`storage
      ensures storage == if storageFails then old(storage) else map[]
      ensures old(ContributionsTracked(State())) ==> ContributionsTracked(State())
    {
      if !storageFails {
        storage := map[];
        forall id ensures Tracked(State(), id) {
        }
      }
    }

    /** Removes `key` from the storage and requests a flush whether or not the
        removal failed; a failure is reported to the caller. */
    method RemoveData(key: K, storageFails: bool) returns (outcome: Outcome)
      modifies this`storage, this`flushRequested
      ensures outcome == (if storageFails then StorageFailed else Done)
      ensures storage == if storageFails then old(storage) else old(storage) - {key}
      ensures key !in storage || storageFails
      ensures flushRequested
      ensures old(ContributionsTracked(State())) ==> ContributionsTracked(State())
    {
      if storageFails {
        outcome := StorageFailed;
      } else {
        storage := storage - {key};
        outcome := Done;
        if old(ContributionsTracked(State())) {
          forall id ensures Tracked(State(), id) {
            assert old(Tracked(State(), id));
          }
          assert ContributionsTracked(State());
        }
      }
      ScheduleFlush();
    }

    /** The container under `key`, never absent: it lists exactly the inputs that
        contribute under `key`, each with its value. */
    method GetData(key: K) returns (container: Container<V>)
      ensures forall j :: j in container <==> key in ContributionsOf(storage, j)
      ensures forall j :: j in container ==> container[j] == ContributionsOf(storage, j)[key]
    {
      container := Read(storage, key);
    }

    /** Visits the stored keys in an unspecified order until the visitor refuses one;
        reports whether every key was accepted. */
    method ProcessAllKeys(visit: K -> bool) returns (completed: bool)
      ensures completed <==> forall k :: k in storage ==> visit(k)
    {
      var rest := storage.Keys;
      completed := true;
      while rest != {}
        invariant rest <= storage.Keys
        invariant forall k :: k in storage && k !in rest ==> visit(k)
        decreases rest
      {
        var k :| k in rest;
        if !visit(k) {
          completed := false;
          return;
        }
        rest := rest - {k};
      }
    }

    /** Collects every stored key into a fresh set. */
    method GetAllKeys() returns (keys: set<K>)
      ensures keys == storage.Keys
    {
      var rest := storage.Keys;
      keys := {};
      while rest != {}
        invariant rest <= storage.Keys
        invariant keys == storage.Keys - rest
        decreases rest
      {
        var k :| k in rest;
        keys := keys + {k};
        rest := rest - {k};
      }
    }

    /** Removes `id`'s contribution under every old key, adds every new pair, and
        requests a flush. */
    method UpdateWithMap(id: int, newData: map<K, V>, oldKeys: set<K>)
      modifies this`storage, this`flushRequested
      ensures storage == Reindexed(old(storage), id, oldKeys, newData)
      ensures flushRequested
    {
      ghost var start := storage;
      var rest := oldKeys;
      while rest != {}
        invariant rest <= oldKeys
        invariant storage == RemoveAll(start, oldKeys - rest, id)
        decreases rest
      {
        var key :| key in rest;
        ghost var done := oldKeys - rest;
        storage := RemoveAllValues(storage, key, id);
        rest := rest - {key};
        assert storage == RemoveAll(start, oldKeys - rest, id) by {
          RemoveAllStep(start, done, key, id);
          assert done + {key} == oldKeys - rest;
        }
      }
      assert oldKeys - rest == oldKeys;
      ghost var cleared := storage;
      rest := newData.Keys;
      while rest != {}
        invariant rest <= newData.Keys
        invariant storage == AddAll(cleared, Restrict(newData, newData.Keys - rest), id)
        decreases rest
      {
        var key :| key in rest;
        ghost var done := newData.Keys - rest;
        storage := AddValue(storage, key, id, newData[key]);
        rest := rest - {key};
        assert storage == AddAll(cleared, Restrict(newData, newData.Keys - rest), id) by {
          AddAllStep(cleared, Restrict(newData, done), key, id, newData[key]);
          RestrictStep(newData, done, key);
          assert done + {key} == newData.Keys - rest;
        }
      }
      assert Restrict(newData, newData.Keys - rest) == newData by {
        assert newData.Keys - rest == newData.Keys;
        RestrictAll(newData);
      }
      ScheduleFlush();
    }

    /** Re-indexes input `id` from `content`. A failure to read the forward entry
        aborts before anything changes; otherwise the storage is diffed against the
        old forward entry and the forward entry is replaced or deleted. */
    method Update(id: int, content: Option<I>, lookupFails: bool) returns (outcome: Outcome)
      requires hasInputsIndex
      modifies this`storage, this`inputsIndex, this`flushRequested
      ensures outcome == (if lookupFails then StorageFailed else Done)
      ensures lookupFails ==> State() == old(State()) && flushRequested == old(flushRequested)
      ensures !lookupFails ==> State() == Reindex(old(State()), id, MapNew(indexer, content))
      ensures !lookupFails ==> flushRequested
      ensures !lookupFails && old(Tracked(State(), id)) ==> ContributionsOf(storage, id) == MapNew(indexer, content)
      ensures !lookupFails ==> forall j :: j != id ==> ContributionsOf(storage, j) == old(ContributionsOf(storage, j))
      ensures !lookupFails && old(ContributionsTracked(State())) ==> ContributionsTracked(State())
      ensures old(NoEmptyContainers(storage)) ==> NoEmptyContainers(storage)
    {
      var data := MapNew(indexer, content);
      if lookupFails {
        return StorageFailed;
      }
      var oldKeys := OldKeys(inputsIndex, id);
      UpdateWithMap(id, data, oldKeys);
      var newKeys := data.Keys;
      if |newKeys| > 0 {
        inputsIndex := inputsIndex[id := newKeys];
      } else {
        inputsIndex := inputsIndex - {id};
      }
      outcome := Done;
      if old(Tracked(State(), id)) {
        ReindexContributionsExact(old(State()), id, data);
      }
      forall j | j != id ensures ContributionsOf(storage, j) == old(ContributionsOf(storage, j)) {
        ReindexKeepsOthers(old(storage), id, oldKeys, data, j);
      }
      if old(ContributionsTracked(State())) {
        ReindexPreservesTracking(old(State()), id, data);
      }
      if old(NoEmptyContainers(storage)) {
        ReindexKeepsContainersNonEmpty(old(storage), id, oldKeys, data);
      }
    }
  }

  /** The contents of input 5 are characters; the indexer maps each character of the
      content to 1. Re-indexing "ab" as "b" drops input 5 from key 'a' and keeps it
      under 'b'. */
  method EndToEndScenario()
  {
    var index := new MapReduceIndex<char, int, string>((text: string) => map c | c in text :: 1, map[]);
    index.SetInputIdToDataKeysIndex(map[]);
    assert ContributionsTracked(index.State()) by {
      forall id ensures Tracked(index.State(), id) {
      }
    }
    var outcome := index.Update(5, Some("ab"), false);
    assert 'a' in ContributionsOf(index.storage, 5) by {
      assert 'a' in "ab";
    }
    assert forall j :: j != 5 ==> 'a' !in ContributionsOf(index.storage, j);
    var a := index.GetData('a');
    assert forall j :: j in a <==> j == 5;
    outcome := index.Update(5, Some("b"), false);
    assert 'a' !in ContributionsOf(index.storage, 5) && 'b' in ContributionsOf(index.storage, 5) by {
      assert 'a' !in "b" && 'b' in "b";
    }
    assert forall j, k :: j != 5 ==> k !in ContributionsOf(index.storage, j);
    a := index.GetData('a');
    var b := index.GetData('b');
    assert forall j :: j !in a;
    assert forall j :: j in b <==> j == 5;
  }
}
