# Incremental map-reduce index

This project models the update algorithm of IntelliJ's `MapReduceIndex`. The index
keeps two maps in step:

- an inverted **storage**: key -> value container. A container maps each input id
  that contributes under that key to the value it contributed.
- a **forward index** (`myInputsIndex`): input id -> the set of keys that input
  produced on its last update.

`update(inputId, content)` maps the content with the indexer. A `null` content maps to
the empty map. It then reads the old key set from the forward index; a missing entry
counts as empty. It removes the input's contribution under every old key and adds every
new (key, value) pair. Finally it records the new key set, or deletes the forward entry
when there are no new keys. `clear`, `removeData`, `getData`, `processAllKeys` and
`getAllKeys` act directly on the storage.

Files:

- `index_storage.dfy` (module `IndexStorage`) is the storage collaborator, seen as a
  value `map<K, map<int, V>>`. It has the single-key steps `RemoveAllValues` and
  `AddValue`, their order-independent closed forms `RemoveAll` and `AddAll`, and the
  per-input view `ContributionsOf`.
- `map_reduce_index.dfy` (module `MapReduce`) holds the specification functions
  `MapNew`, `NextForward`, `Reindexed` and `Reindex` and the lemmas about them. It also
  holds the class `MapReduceIndex`, whose fields are the storage, the forward index,
  whether a forward index has been attached, and a `flushRequested` flag that stands
  for the flush alarm. `Update` and `UpdateWithMap` loop over the old key set and the
  new map, and their contracts tie the new state to `Reindex`.
  `EndToEndScenario` is a client whose assertions follow one input through two
  updates. Input 5 is indexed from `"ab"` as `{a:1, b:1}` and then re-indexed from
  `"b"`. Afterwards key `a` has no contributors and key `b` has exactly input 5.

The invariant the diff depends on is `ContributionsTracked`: every contribution of an
input in storage sits under a key of that input's forward entry. `Update` preserves it.
`Clear` and `RemoveData` preserve it because they only shrink the storage. Under it,
re-indexing leaves an input's contributions exactly equal to the new data
(`ReindexContributionsExact`).

The indexer is a Dafny total function `I -> map<K, V>`, so it is deterministic by
construction.

Two error paths of the code shape the contracts:

- `clear` catches the storage's exception and logs it (MapReduceIndex.java:76-78), so
  `Clear` reports nothing to its caller.
- `removeData` schedules the flush in a `finally` block (MapReduceIndex.java:175-177),
  so `RemoveData` requests a flush whether or not the removal failed.

## Model

| member | source | states |
|---|---|---|
| `IndexStorage.RemoveAllStep` | platform/lang-impl/src/com/intellij/util/indexing/MapReduceIndex.java:228-230 | one more `removeAllValues` call extends the removal by that key, so the loop over the old keys removes `id` under all of them, whatever the visiting order |
| `IndexStorage.AddAllStep` | platform/lang-impl/src/com/intellij/util/indexing/MapReduceIndex.java:231-235 | one more `addValue` call for a fresh key extends the addition by that pair, so the loop over the new map adds all of it, whatever the visiting order |
| `IndexStorage.RemoveNothing` | platform/lang-impl/src/com/intellij/util/indexing/MapReduceIndex.java:198-200 | removing under the empty old key set leaves the storage unchanged |
| `MapReduce.MapNew` | platform/lang-impl/src/com/intellij/util/indexing/MapReduceIndex.java:223-225 | `null` content maps to the empty map; present content maps to exactly what the indexer returns for it. It stands as a definition; what the update then promises for `null` content is proved in `UpdateWithNullRemoves` |
| `MapReduce.OldKeys` | platform/lang-impl/src/com/intellij/util/indexing/MapReduceIndex.java:191-200 | the old key set is the forward entry of `id`, or empty when `id` has no entry. It stands as a definition; that a first update then only adds is proved in `FirstUpdateOnlyAdds` |
| `MapReduce.NextForward` | platform/lang-impl/src/com/intellij/util/indexing/MapReduceIndex.java:205-212 | after the update the forward entry of `id` exists iff the new map is non-empty, and then it equals the new key set; every other entry is unchanged |
| `MapReduce.ReindexedStoresNewValues` | platform/lang-impl/src/com/intellij/util/indexing/MapReduceIndex.java:227-235 | for any old key set: every new key carries `id` with exactly the new value, and every old key that is not new no longer carries `id` |
| `MapReduce.ReindexContributionsExact` | platform/lang-impl/src/com/intellij/util/indexing/MapReduceIndex.java:185-237 | if `id`'s contributions were all under its forward entry, then after re-indexing `id` contributes exactly the new map: no stale contributor is left |
| `MapReduce.ReindexKeepsOthers` | platform/lang-impl/src/com/intellij/util/indexing/MapReduceIndex.java:227-235 | re-indexing `id` leaves the contributions of every other input unchanged |
| `MapReduce.ReindexKeepsInputTracked` | platform/lang-impl/src/com/intellij/util/indexing/MapReduceIndex.java:201-212 | re-indexing a tracked input leaves it tracked: its contributions then sit under exactly its new forward entry |
| `MapReduce.ReindexPreservesTracking` | platform/lang-impl/src/com/intellij/util/indexing/MapReduceIndex.java:201-212 | if every contribution sits under a key of its input's forward entry before the update, the same holds after it |
| `MapReduce.ReindexKeepsContainersNonEmpty` | platform/lang-impl/src/com/intellij/util/indexing/MapReduceIndex.java:227-235 | re-indexing never leaves a key whose container has no contributor |
| `MapReduce.UpdateWithNullRemoves` | platform/lang-impl/src/com/intellij/util/indexing/MapReduceIndex.java:185-225 | updating with `null` content maps to the empty map, so it removes every contribution of a tracked `id` and deletes its forward entry |
| `MapReduce.FirstUpdateOnlyAdds` | platform/lang-impl/src/com/intellij/util/indexing/MapReduceIndex.java:191-204 | with no forward entry for `id`, the update only adds the new pairs to the storage |
| `MapReduce.ReaddingStoredDataIsNoOp` | platform/lang-impl/src/com/intellij/util/indexing/MapReduceIndex.java:227-235 | clearing and re-adding data that is already stored exactly as given leaves the storage unchanged |
| `MapReduce.SecondReindexKeepsStorage` | platform/lang-impl/src/com/intellij/util/indexing/MapReduceIndex.java:185-237 | a second identical update leaves the storage as the first one left it |
| `MapReduce.SecondForwardUpdateKeepsEntry` | platform/lang-impl/src/com/intellij/util/indexing/MapReduceIndex.java:205-212 | a second identical update leaves the forward index as the first one left it |
| `MapReduce.ReindexIdempotent` | platform/lang-impl/src/com/intellij/util/indexing/MapReduceIndex.java:185-237 | two identical updates give the same storage and forward index as one |
| `MapReduce.ReplayKeepsTracking` | platform/lang-impl/src/com/intellij/util/indexing/MapReduceIndex.java:185-237 | any run of updates of one input keeps every contribution of every input tracked |
| `MapReduce.ReplayKeepsInputTracked` | platform/lang-impl/src/com/intellij/util/indexing/MapReduceIndex.java:185-237 | any run of updates of a tracked input leaves that input tracked |
| `MapReduce.ReplayMirrorsLastUpdate` | platform/lang-impl/src/com/intellij/util/indexing/MapReduceIndex.java:185-237 | after any non-empty run of updates of one input that starts tracked, the input contributes exactly what the last update produced, and it has a forward entry iff that update produced something |
| `MapReduce.MapReduceIndex.constructor` | platform/lang-impl/src/com/intellij/util/indexing/MapReduceIndex.java:61-65 | a new index holds the given indexer and storage, has no forward index attached and no flush requested |
| `MapReduce.MapReduceIndex.SetInputIdToDataKeysIndex` | platform/lang-impl/src/com/intellij/util/indexing/MapReduceIndex.java:181-183 | attaches the given forward index |
| `MapReduce.MapReduceIndex.ScheduleFlush` | platform/lang-impl/src/com/intellij/util/indexing/MapReduceIndex.java:239-242 | a flush is requested afterwards |
| `MapReduce.MapReduceIndex.Clear` | platform/lang-impl/src/com/intellij/util/indexing/MapReduceIndex.java:71-82 | the storage is emptied, or left as it was if the storage's clear fails (the error is swallowed); the forward index is not touched; the tracking invariant is kept |
| `MapReduce.MapReduceIndex.RemoveData` | platform/lang-impl/src/com/intellij/util/indexing/MapReduceIndex.java:169-179 | the key is gone from storage unless removal failed, in which case the failure is reported and storage is unchanged; a flush is requested in both cases; the tracking invariant is kept |
| `MapReduce.MapReduceIndex.GetData` | platform/lang-impl/src/com/intellij/util/indexing/MapReduceIndex.java:157-167 | the returned container is never absent; it lists exactly the inputs that contribute under the key, each with its value |
| `MapReduce.MapReduceIndex.ProcessAllKeys` | platform/lang-impl/src/com/intellij/util/indexing/MapReduceIndex.java:146-155 | returns true iff the visitor accepts every stored key |
| `MapReduce.MapReduceIndex.GetAllKeys` | platform/lang-impl/src/com/intellij/util/indexing/MapReduceIndex.java:140-144 | returns exactly the set of keys in storage |
| `MapReduce.MapReduceIndex.UpdateWithMap` | platform/lang-impl/src/com/intellij/util/indexing/MapReduceIndex.java:227-237 | the storage becomes the old storage with `id` removed under every old key and then every new pair added; a flush is requested |
| `MapReduce.MapReduceIndex.Update` | platform/lang-impl/src/com/intellij/util/indexing/MapReduceIndex.java:185-221 | needs the forward index attached. A failed forward lookup aborts with a storage failure and changes nothing. Otherwise the state becomes `Reindex` of the old state with the mapped content, and a flush is requested. A tracked `id` then contributes exactly the mapped content, other inputs' contributions are unchanged, and the tracking and non-empty-container invariants are kept |

## Left out

- The read/write lock (`getReadLock`, `getWriteLock`): the model is sequential, so every operation is atomic. Update: the model runs `mapNew`, the forward lookup and the mutation as one atomic step. The source computes `mapNew` and reads the old key set (MapReduceIndex.java:189-200) before it takes the write lock (line 201), so two concurrent updates of the same input can both diff against the same old key set. One of them can then leave a stale contribution that no forward entry lists. ReindexContributionsExact, ReplayMirrorsLastUpdate and `Update`'s exactness `ensures` therefore assume that no other update of the same input runs at the same time.
- The flush alarm, its 15 s debounce and 20 s postponement, `canFlush`'s memory-ratio test and `HeavyProcessLatch`: background scheduling over the runtime. A request is the boolean `flushRequested`, and it is never reset because `flush` is not modelled.
- `flush` and `dispose`: they flush and close the persistent maps and wrap their exceptions; there is no storage file in the model.
- `FileBasedIndex.getInstance().requestRebuild`: a call into the global index registry.
- `getStorage`: a plain accessor with nothing to state.
- The internals of `IndexStorage`, `ValueContainer`, `PersistentHashMap` and `DataIndexer` are not part of this model. The storage is the abstract map described above. The model assumes the storage drops a container left with no contributor.
- AddValue: a container is modelled as input id -> value, so `addValue` replaces an earlier value of the same input under that key. The source's container maps each value to a set of input ids, where a second `addValue` of a different value would tag the input on both values. The two agree while the input is tracked (all its stored values sit under keys of its forward entry), because the update first removes the input under those keys. ReindexedStoresNewValues, SecondReindexKeepsStorage and ReindexIdempotent hold without a tracking requirement only because of this replacing `addValue`; for an untracked input the source's storage could keep the old value beside the new one.
- The indexer is total, so an exception thrown by `DataIndexer.map` is not modelled.
- Storage and forward-index I/O failures in the middle of `update` (in `removeAllValues`, `addValue`, `put` or `remove`) are not modelled. Only the failure of the forward lookup at line 193 is modelled, and it happens before any change.
- Clear: a failing storage clear is modelled as changing nothing. What a half-done clear leaves behind depends on the storage, which is not part of this model.
- RemoveData: a failing storage removal is modelled as changing nothing, for the same reason.
- GetData, ProcessAllKeys, GetAllKeys: a failing storage read is not modelled, so the queries always succeed. The source declares each of them `throws StorageException` (MapReduceIndex.java:140, 146, 158), because `read` and `processKeys` on the storage can fail.
- SetInputIdToDataKeysIndex: a `null` argument is not modelled. The source accepts `null`, which detaches the forward index (MapReduceIndex.java:181-183); in the model `hasInputsIndex` never returns to false.
- ProcessAllKeys: the visitor is a pure function. The source's `CollectProcessor` is a stateful visitor, so `GetAllKeys` collects the keys with its own loop over the stored keys.
