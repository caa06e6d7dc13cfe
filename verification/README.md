# Thread-safe indexed store: a Dafny model

This project models `threadSafeMap`, the in-memory store behind the Kubernetes client
cache (`pkg/client/cache/thread_safe_store.go`). The store keeps a map of items by
primary key. It also keeps secondary indices derived from those items: index name →
index value → set of primary keys (a *bucket*). The indices are computed by a fixed
registry of caller-supplied index functions. Each index function maps a value to a list
of index values, or fails with an error.

Every operation runs under one reader/writer lock, so each is one atomic step. The model
therefore treats each operation as a pure transition on an immutable `Store` value:

- `wrappers.dfy`: `Option` (where Go uses nil) and `Result` (Go's `(T, error)` pair).
- `enumeration.dfy`: `Enumerate`, which lists a finite set in an unspecified order, as
  ranging over a Go map does.
- `index_engine.dfy` (module `IndexEngine`):
  - the registry (`Indexers`: entries with unique names);
  - the indices, where a missing index or bucket reads as empty (`Bucket`);
  - the two maintenance passes, `updateIndices` (`UpdateIndices`, made of
    `DeleteFromIndices` followed by `InsertIntoIndices`) and `deleteFromIndices`;
  - a declarative reference, `Rebuild(reg, items)`: the indices a full rebuild yields.
- `thread_safe_store.dfy` (module `ThreadSafeStore`):
  - the operations `NewThreadSafeStore`, `Add`, `Update`, `Delete`, `Get`, `List`,
    `ListKeys`, `Replace`, `Index`, `ByIndex`, `ListIndexFuncValues`;
  - the consistency invariant `Consistent`: a key is in bucket (n, v) exactly when it is
    live and index function n derives v from its item;
  - the lemmas about the operations.
- `scenarios.dfy`: a worked example. It uses a `byColor` index and repaints a stored widget.

Main results:

- **Consistency is the rebuild.** `Consistent` holds exactly when every bucket agrees with
  `Rebuild`. `NewThreadSafeStore` establishes it. `Add`, `Update` and `Delete` preserve it
  when the index functions succeed on the values involved. `Replace` re-establishes it,
  and produces exactly `Rebuild(items)`, when they succeed on every new item.
- **No other key is touched.** Even when an index function fails, `Add`, `Update` and
  `Delete` never move any key other than the one they were given. After `Replace`, no key
  outside the new item set remains in any bucket.
- **An update moves the key.** When a key is overwritten and the index functions succeed
  on the old and the new value, the key leaves every bucket that only the old value
  produced and joins every bucket of the new value. When a function fails on the old
  value, the removal pass stops there and the key can stay in a stale bucket.
- **Queries.** `Index` reports, without duplicates, the union of the buckets of the probe's
  index values. In a consistent store these are exactly the live keys that share an index
  value with the probe. `ByIndex` on a missing bucket reports nothing, which is not an
  error. An unregistered index name is an `IndexNotFound` error. A failing index function
  on the probe passes its own error on.

Facts about the code that the model keeps:

- `ListIndexFuncValues` lists every index value that has a bucket, including buckets
  that have become empty: `deleteFromIndices` never removes a bucket, and only `Replace`
  discards the indices and their buckets. `PopulatedValuesAreListed` proves that in a
  consistent store every index value of a live item is listed.
- Neither `Add` nor `Update` checks that the key is non-empty.

## Model

| member | source | states |
|---|---|---|
| IndexEngine.Find | pkg/client/cache/thread_safe_store.go:133-136 | a function is found exactly for the registered names, and it is the function registered under that name |
| IndexEngine.InsertAll | pkg/client/cache/thread_safe_store.go:208-215 | the index gains a bucket for every listed value. `key` joins exactly the buckets of the listed values. Other buckets are unchanged |
| IndexEngine.RemoveAll | pkg/client/cache/thread_safe_store.go:230-237 | no bucket is created or dropped. `key` leaves exactly the existing buckets of the listed values. Other buckets are unchanged |
| IndexEngine.InsertIntoIndices | pkg/client/cache/thread_safe_store.go:197-217 | reports an error exactly when some index function fails on the value. Whatever happens, buckets only grow, and only by `key` |
| IndexEngine.DeleteFromIndices | pkg/client/cache/thread_safe_store.go:222-240 | reports an error exactly when some index function fails. No index or bucket is created or dropped. Buckets only shrink, and only by `key` |
| IndexEngine.UpdateIndices | pkg/client/cache/thread_safe_store.go:192-218 | the error reported is that of the insertion pass; a failure while removing the old value is dropped. No key other than `key` enters or leaves a bucket |
| IndexEngine.InsertCreatesIndices | pkg/client/cache/thread_safe_store.go:202-206 | when every function succeeds, insertion creates exactly the registered indices that were missing |
| IndexEngine.InsertCreatesBuckets | pkg/client/cache/thread_safe_store.go:208-213 | when every function succeeds, each index gains exactly the buckets of the values derived from the new item |
| IndexEngine.InsertEffect | pkg/client/cache/thread_safe_store.go:197-216 | when every function succeeds, `key` joins exactly the buckets (n, v) where v is derived from the value by function n. Every other bucket is unchanged |
| IndexEngine.DeleteEffect | pkg/client/cache/thread_safe_store.go:222-240 | when every function succeeds, `key` leaves exactly the buckets (n, v) where v is derived from the value by function n. Every other bucket is unchanged |
| IndexEngine.RebuildBucket | pkg/client/cache/thread_safe_store.go:120-124 | each bucket of the rebuilt indices holds exactly the keys whose item is indexed under that value |
| IndexEngine.RebuildStep | pkg/client/cache/thread_safe_store.go:122-124 | reconciling one more item with no previous value turns the rebuild of the item set so far into the rebuild of the larger set |
| ThreadSafeStore.NewThreadSafeStore | pkg/client/cache/thread_safe_store.go:242-248 | the new store has the given registry, no items and no indices at all, whatever `indices` argument is passed, and it is consistent |
| ThreadSafeStore.Add | pkg/client/cache/thread_safe_store.go:61-67 | the key now maps to the new value and every other item is unchanged. Even when an index function fails, no key other than this one enters or leaves a bucket |
| ThreadSafeStore.Update | pkg/client/cache/thread_safe_store.go:69-75 | the same as `Add` |
| ThreadSafeStore.Delete | pkg/client/cache/thread_safe_store.go:77-84 | the key is no longer an item and every other item is unchanged. Buckets only shrink, and only by this key |
| ThreadSafeStore.Replace | pkg/client/cache/thread_safe_store.go:115-125 | the items become the new map and no other key remains in any bucket. When every function succeeds on every new item, the indices are exactly `Rebuild(items)` and the store is consistent |
| ThreadSafeStore.Get | pkg/client/cache/thread_safe_store.go:86-91 | a value is found exactly for live keys, and it is the stored one |
| ThreadSafeStore.ListKeys | pkg/client/cache/thread_safe_store.go:103-113 | lists every live key exactly once |
| ThreadSafeStore.List | pkg/client/cache/thread_safe_store.go:93-101 | returns, as a multiset, the stored values counted once per live key, one entry per item |
| ThreadSafeStore.ValueCountsPerKey | pkg/client/cache/thread_safe_store.go:96-99 | in that multiset, each value occurs exactly as often as there are live keys holding it |
| ThreadSafeStore.UnionBuckets | pkg/client/cache/thread_safe_store.go:144-151 | a key is in the result exactly when it is in the bucket of one of the listed values |
| ThreadSafeStore.IndexKeys | pkg/client/cache/thread_safe_store.go:129-151 | an unregistered name gives `IndexNotFound`. A failing function on the probe gives its own error. Otherwise the result is the union of the buckets of the probe's index values |
| ThreadSafeStore.Index | pkg/client/cache/thread_safe_store.go:129-158 | fails exactly as `IndexKeys` does. Otherwise returns one entry per matching key, with no key twice, each the value stored under it. In a consistent store every entry is a live value |
| ThreadSafeStore.ByIndexKeys | pkg/client/cache/thread_safe_store.go:161-172 | fails with `IndexNotFound` exactly for unregistered names. Otherwise the result is the bucket, empty when it is missing |
| ThreadSafeStore.ByIndex | pkg/client/cache/thread_safe_store.go:161-179 | fails exactly as `ByIndexKeys` does. Otherwise returns one entry per key of the bucket, each the value stored under it. In a consistent store every entry is a live value |
| ThreadSafeStore.ListIndexFuncValues | pkg/client/cache/thread_safe_store.go:181-188 | lists each index value that has a bucket exactly once, empty buckets included. An unknown name gives an empty list |
| ThreadSafeStore.ConsistentIffAgreesWithRebuild | pkg/client/cache/thread_safe_store.go:115-125 | the consistency invariant holds exactly when every bucket equals the bucket a full rebuild from the items would produce |
| ThreadSafeStore.GetAfterAdd | pkg/client/cache/thread_safe_store.go:61-67 | after an upsert, `Get` returns the new value for the key and the old answer for every other key |
| ThreadSafeStore.GetAfterDelete | pkg/client/cache/thread_safe_store.go:77-84 | after a delete, `Get` finds nothing for the key and the old answer for every other key |
| ThreadSafeStore.DeleteAbsentIsNoOp | pkg/client/cache/thread_safe_store.go:80-83 | deleting an absent key changes neither the items nor the indices |
| ThreadSafeStore.UpsertIsDeleteThenAdd | pkg/client/cache/thread_safe_store.go:64-66 | overwriting a key has the same effect as deleting it and then inserting it |
| ThreadSafeStore.UpsertEffect | pkg/client/cache/thread_safe_store.go:192-216 | when the functions succeed, the key leaves exactly the old value's buckets and joins exactly the new value's. Every other bucket is unchanged |
| ThreadSafeStore.UpdateMovesMembership | pkg/client/cache/thread_safe_store.go:194-215 | after an overwrite, the key is in every bucket of the new value and in no bucket produced only by the old one |
| ThreadSafeStore.AddPreservesConsistency | pkg/client/cache/thread_safe_store.go:61-67 | `Add` keeps the store consistent when the functions succeed on the new value and on the overwritten one |
| ThreadSafeStore.UpdatePreservesConsistency | pkg/client/cache/thread_safe_store.go:69-75 | `Update` keeps the store consistent under the same condition |
| ThreadSafeStore.DeletePreservesConsistency | pkg/client/cache/thread_safe_store.go:77-84 | `Delete` keeps the store consistent when the functions succeed on the deleted value. Afterwards the key is in no bucket |
| ThreadSafeStore.ConsistentKeysAreLive | pkg/client/cache/thread_safe_store.go:172-176 | in a consistent store every bucket holds only live keys |
| ThreadSafeStore.IndexMatchesItems | pkg/client/cache/thread_safe_store.go:138-157 | in a consistent store, `Index` reports exactly the live keys whose item shares an index value with the probe |
| ThreadSafeStore.ByIndexMatchesItems | pkg/client/cache/thread_safe_store.go:170-178 | in a consistent store, `ByIndex` reports exactly the live keys whose item is indexed under the given value |
| ThreadSafeStore.PopulatedValuesAreListed | pkg/client/cache/thread_safe_store.go:181-188 | in a consistent store, every index value of a live item has a bucket, so `ListIndexFuncValues` lists it |
| Scenarios.RecolorScenario | pkg/client/cache/thread_safe_store.go:161-179 | store a red and a blue widget, then repaint the red one blue. The red bucket goes from the first key to empty, the blue bucket ends with both keys, and an unknown index name is an error |
| Enumeration.Enumerate | pkg/client/cache/thread_safe_store.go:108-111 | lists every element of the set exactly once |

## Left out

- Locking (`sync.RWMutex`): each operation is one atomic step of a sequential model. The
  missing lock in `ListIndexFuncValues` is a concurrency defect this model cannot express.
- Iteration order of Go maps. The results of `List`, `ListKeys`, `Index`, `ByIndex` and
  `ListIndexFuncValues` are stated as "every element exactly once", not as sequences.
- The registry is a Go map, and Go visits its entries in a fresh arbitrary order on every
  loop. The model lists the registry in one fixed order and uses that order in every pass.
  The order matters only when an index function fails part-way through a pass.
- AddPreservesConsistency, UpdatePreservesConsistency, DeletePreservesConsistency: these
  hold only when the index functions succeed on the values involved. After a failure the
  code stops the pass early and drops the error, so buckets can go stale. Only the facts
  that hold regardless are proved for that case: the items change as specified, and no
  other key is touched.
- Replace: consistency and equality with `Rebuild` are proved only when every index
  function succeeds on every new item. The other facts hold unconditionally.
- A stored nil value, and a registered nil index function, are not modelled. Reading a
  key that is not live (Go's nil) is `None` in the lists returned by `Index` and `ByIndex`.
- Replace with a nil map: Go installs the caller's map as it is, so after `Replace(nil)`
  reads and `Delete` still work but the next `Add` or `Update` panics on assignment to a
  nil map. The model has no nil map, so its `Add` and `Update` always succeed.
- Aliasing. Values handed out by `Get`/`List` are references, and so is the map `Replace`
  installs; mutating them behind the store's back is outside a value model.
- Index functions are pure total Dafny functions. Panics and side effects inside them are
  not modelled.
- The error text "Index with name %s does not exist" is represented by
  `IndexNotFound(name)`.
- `test/e2e/kubectl.go` is not part of this model. It is an end-to-end test suite that
  runs the `kubectl` binary, makes HTTP requests and polls with wall-clock timeouts.
