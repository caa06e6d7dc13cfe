/**
 The thread-safe indexed store: a keyed collection of items together with the indices
 derived from them. Each operation runs as one atomic step under the store's lock, so it
 is modelled as a pure state transition on an immutable `Store` value.
 */
module ThreadSafeStore {
  import opened Wrappers
  import opened Enumeration
  import opened IndexEngine

  /** The store: primary items, the fixed registry of index functions, the derived indices. */
  datatype Store<!V> = Store(items: map<string, V>, indexers: Indexers<V>, indices: Indices)

  /** The errors the index queries report. */
  datatype IndexError =
    | IndexNotFound(name: string)      // no index function registered under this name
    | IndexFuncFailed(message: string) // the index function failed on the probe

  /** Reading `items[key]`: the stored value, or `None` (Go's nil) for an absent key. */
  function Lookup<V>(items: map<string, V>, key: string): Option<V>
  {
    if key in items then Some(items[key]) else None
  }

  /**
   The index consistency invariant: a key is in the bucket for (`n`, `v`) exactly when it
   is live and the function registered as `n` indexes its item under `v`. A missing index
   or bucket counts as empty, so an empty bucket left behind is harmless.
   */
  ghost predicate Consistent<V>(s: Store<V>)
  {
    forall n, v, k :: k in Bucket(s.indices, n, v) <==> k in s.items && v in IndexValues(s.indexers, n, s.items[k])
  }

  /** Every registered index function succeeds on every stored item. */
  ghost predicate AllSucceed<V>(reg: seq<Indexer<V>>, items: map<string, V>)
  {
    forall k :: k in items ==> Succeeds(reg, items[k])
  }

  // ---------------------------------------------------------------------------
  // Construction and mutation

  /** A new store: no items and no indices; the `indices` argument is ignored. */
  function NewThreadSafeStore<V>(indexers: Indexers<V>, indices: Indices): (s: Store<V>)
    ensures s.indexers == indexers
    ensures s.items == map[]
    ensures s.indices == map[]
    ensures forall n, v :: Bucket(s.indices, n, v) == {}
    ensures Consistent(s)
  {
    Store(map[], indexers, map[])
  }

  /**
   Inserts or overwrites `key`, then reconciles the indices: out of the previous value's
   buckets, into the new value's. Whatever the index functions do, no key other than `key`
   enters or leaves a bucket.
   */
  function Add<V>(s: Store<V>, key: string, obj: V): (r: Store<V>)
    ensures r.items == s.items[key := obj]
    ensures r.indexers == s.indexers
    ensures forall n, v :: Bucket(r.indices, n, v) <= Bucket(s.indices, n, v) + {key}
    ensures forall n, v :: Bucket(s.indices, n, v) - {key} <= Bucket(r.indices, n, v)
  {
    var previous := Lookup(s.items, key);
    var reconciled := UpdateIndices(s.indexers, s.indices, previous, obj, key);
    // the maintenance error, if any, is dropped
    Store(s.items[key := obj], s.indexers, reconciled.indices)
  }

  /** `Update` does exactly what `Add` does. */
  function Update<V>(s: Store<V>, key: string, obj: V): (r: Store<V>)
    ensures r.items == s.items[key := obj]
    ensures r.indexers == s.indexers
    ensures forall n, v :: Bucket(r.indices, n, v) <= Bucket(s.indices, n, v) + {key}
    ensures forall n, v :: Bucket(s.indices, n, v) - {key} <= Bucket(r.indices, n, v)
  {
    var previous := Lookup(s.items, key);
    var reconciled := UpdateIndices(s.indexers, s.indices, previous, obj, key);
    Store(s.items[key := obj], s.indexers, reconciled.indices)
  }

  /**
   Removes `key` if it is live, taking it out of its value's buckets first; no bucket
   gains a key and no other key leaves one. An absent key is a no-op.
   */
  function Delete<V>(s: Store<V>, key: string): (r: Store<V>)
    ensures r.items == s.items - {key}
    ensures r.indexers == s.indexers
    ensures forall n, v :: Bucket(r.indices, n, v) <= Bucket(s.indices, n, v)
    ensures forall n, v :: Bucket(s.indices, n, v) - {key} <= Bucket(r.indices, n, v)
  {
    if key in s.items then
      var reconciled := DeleteFromIndices(s.indexers, s.indices, s.items[key], key);
      Store(s.items - {key}, s.indexers, reconciled.indices)
    else
      s
  }

  /**
   Installs `items` and rebuilds every index from scratch by reconciling each new item
   with no previous value. No key outside `items` is left in a bucket, whatever the index
   functions do; when they all succeed the result is exactly `Rebuild(items)`.
   */
  method Replace<V>(s: Store<V>, items: map<string, V>) returns (r: Store<V>)
    ensures r.items == items
    ensures r.indexers == s.indexers
    ensures forall n, v :: Bucket(r.indices, n, v) <= items.Keys
    ensures AllSucceed(s.indexers, items) ==> r.indices == Rebuild(s.indexers, items)
    ensures AllSucceed(s.indexers, items) ==> Consistent(r)
  {
    var indices: Indices := map[];
    var rest := items.Keys;
    ghost var done: map<string, V> := map[];
    while rest != {}
      invariant rest <= items.Keys
      invariant done.Keys == items.Keys - rest
      invariant forall k :: k in done ==> done[k] == items[k]
      invariant forall n, v :: Bucket(indices, n, v) <= done.Keys
      invariant AllSucceed(s.indexers, items) ==> indices == Rebuild(s.indexers, done)
      decreases rest
    {
      var key :| key in rest;
      if AllSucceed(s.indexers, items) {
        RebuildStep(s.indexers, done, key, items[key]);
      }
      indices := UpdateIndices(s.indexers, indices, None, items[key], key).indices;
      done := done[key := items[key]];
      rest := rest - {key};
    }
    assert done == items;
    r := Store(items, s.indexers, indices);
    if AllSucceed(s.indexers, items) {
      ConsistentIffAgreesWithRebuild(r);
    }
  }

  // ---------------------------------------------------------------------------
  // Queries

  /** Point lookup. */
  function Get<V>(s: Store<V>, key: string): (r: Option<V>)
    ensures r.Some? <==> key in s.items
    ensures r.Some? ==> r.value == s.items[key]
  {
    Lookup(s.items, key)
  }

  /** The live keys, each once, in an unspecified order. */
  method ListKeys<V>(s: Store<V>) returns (keys: seq<string>)
    ensures Enumerates(keys, s.items.Keys)
    ensures |keys| == |s.items|
  {
    keys := Enumerate(s.items.Keys);
  }

  /** The stored values counted once per live key: a value stored under two keys counts twice. */
  ghost function ValueCounts<V>(items: map<string, V>): multiset<V>
    decreases |items|
  {
    if items == map[] then multiset{}
    else
      var k :| k in items;
      ValueCounts(items - {k}) + multiset{items[k]}
  }

  /** Taking out any one key removes exactly its value once, whichever key the definition picks first. */
  lemma {:induction false} ValueCountsRemove<V>(items: map<string, V>, key: string)
    requires key in items
    ensures ValueCounts(items) == ValueCounts(items - {key}) + multiset{items[key]}
    decreases |items|
  {
    var k :| k in items && ValueCounts(items) == ValueCounts(items - {k}) + multiset{items[k]};
    if k != key {
      var withoutK := items - {k};
      var withoutKey := items - {key};
      var withoutBoth := withoutK - {key};
      assert ValueCounts(withoutK) == ValueCounts(withoutBoth) + multiset{items[key]} by {
        assert withoutK.Keys == items.Keys - {k};
        ValueCountsRemove(withoutK, key);
      }
      assert ValueCounts(withoutKey) == ValueCounts(withoutBoth) + multiset{items[k]} by {
        assert withoutKey.Keys == items.Keys - {key};
        assert withoutKey - {k} == withoutBoth;
        ValueCountsRemove(withoutKey, k);
      }
    }
  }

  /** Each value is counted exactly as often as there are live keys holding it. */
  lemma {:induction false} ValueCountsPerKey<V>(items: map<string, V>, x: V)
    ensures ValueCounts(items)[x] == |set k | k in items && items[k] == x|
    decreases |items|
  {
    if items != map[] {
      var k :| k in items;
      ValueCountsRemove(items, k);
      assert |items - {k}| < |items| by {
        assert (items - {k}).Keys == items.Keys - {k};
      }
      ValueCountsPerKey(items - {k}, x);
      var holders := set j | j in items && items[j] == x;
      var rest := set j | j in items - {k} && (items - {k})[j] == x;
      if items[k] == x {
        assert holders == rest + {k};
      } else {
        assert holders == rest;
      }
    }
  }

  /** Moving one entry from the unlisted items to the listed values keeps the counts. */
  lemma ListStep<V>(values: seq<V>, rest: map<string, V>, key: string)
    requires key in rest
    ensures multiset(values + [rest[key]]) + ValueCounts(rest - {key}) == multiset(values) + ValueCounts(rest)
    ensures |rest - {key}| == |rest| - 1
  {
    ValueCountsRemove(rest, key);
    assert (rest - {key}).Keys == rest.Keys - {key};
  }

  /** One stored value per live key, in an unspecified order. */
  method List<V>(s: Store<V>) returns (values: seq<V>)
    ensures multiset(values) == ValueCounts(s.items)
    ensures |values| == |s.items|
  {
    values := [];
    var rest := s.items;
    while rest != map[]
      invariant multiset(values) + ValueCounts(rest) == ValueCounts(s.items)
      invariant |values| + |rest| == |s.items|
      decreases |rest|
    {
      var key :| key in rest;
      ListStep(values, rest, key);
      values := values + [rest[key]];
      rest := rest - {key};
    }
  }

  /** The union of the buckets of `values` in index `name`, each key once. */
  function UnionBuckets(indices: Indices, name: string, values: seq<string>): (r: set<string>)
    ensures forall k :: k in r <==> exists v :: v in values && k in Bucket(indices, name, v)
    decreases |values|
  {
    if values == [] then {} else Bucket(indices, name, values[0]) + UnionBuckets(indices, name, values[1..])
  }

  /**
   The keys `Index(name, probe)` reports: the union, over the index values the probe is
   indexed under, of their buckets. Fails when no function is registered under `name` and
   passes on the function's own error when it fails on the probe.
   */
  function IndexKeys<V>(s: Store<V>, name: string, probe: V): (r: Result<set<string>, IndexError>)
    ensures name !in Names(s.indexers) ==> r == Failure(IndexNotFound(name))
    ensures name in Names(s.indexers) ==>
      var f := Find(s.indexers, name).value;
      && (f(probe).Failure? ==> r == Failure(IndexFuncFailed(f(probe).error)))
      && (f(probe).Success? ==>
            && r.Success?
            && (forall k :: k in r.value <==> exists v :: v in IndexValues(s.indexers, name, probe) && k in Bucket(s.indices, name, v)))
  {
    match Find(s.indexers, name)
    case None => Failure(IndexNotFound(name))
    case Some(f) =>
      match f(probe)
      case Failure(e) => Failure(IndexFuncFailed(e))
      case Success(values) =>
        assert IndexValues(s.indexers, name, probe) == set v | v in values;
        Success(UnionBuckets(s.indices, name, values))
  }

  /** The stored value of each of `keys`, `None` for a key that is not live. */
  function ValuesOf<V>(items: map<string, V>, keys: seq<string>): (r: seq<Option<V>>)
    ensures |r| == |keys|
    ensures forall i :: 0 <= i < |keys| ==> r[i] == Lookup(items, keys[i])
  {
    seq(|keys|, i requires 0 <= i < |keys| => Lookup(items, keys[i]))
  }

  /**
   The values of the items matching `probe` on index `name`, one per key (keys reached
   through several index values are reported once), in an unspecified order.
   */
  method Index<V>(s: Store<V>, name: string, probe: V) returns (r: Result<seq<Option<V>>, IndexError>, ghost keys: seq<string>)
    ensures IndexKeys(s, name, probe).Failure? ==> r == Failure(IndexKeys(s, name, probe).error)
    ensures IndexKeys(s, name, probe).Success? ==>
      && Enumerates(keys, IndexKeys(s, name, probe).value)
      && r == Success(ValuesOf(s.items, keys))
    ensures Consistent(s) && r.Success? ==> forall i :: 0 <= i < |r.value| ==> r.value[i].Some?
  {
    var matched := IndexKeys(s, name, probe);
    keys := [];
    match matched
    case Failure(e) =>
      r := Failure(e);
    case Success(found) =>
      var listed := Enumerate(found);
      keys := listed;
      r := Success(ValuesOf(s.items, listed));
      if Consistent(s) {
        forall i | 0 <= i < |listed|
          ensures listed[i] in s.items
        {
          assert listed[i] in found;
          var v :| v in IndexValues(s.indexers, name, probe) && listed[i] in Bucket(s.indices, name, v);
          ConsistentKeysAreLive(s, name, v);
        }
      }
  }

  /**
   The keys `ByIndex(name, value)` reports: the bucket for (`name`, `value`), empty when
   it is missing. Fails when no function is registered under `name`.
   */
  function ByIndexKeys<V>(s: Store<V>, name: string, value: string): (r: Result<set<string>, IndexError>)
    ensures r.Failure? <==> name !in Names(s.indexers)
    ensures r.Failure? ==> r.error == IndexNotFound(name)
    ensures r.Success? ==> r.value == Bucket(s.indices, name, value)
  {
    if Find(s.indexers, name).None? then Failure(IndexNotFound(name))
    else Success(Bucket(s.indices, name, value))
  }

  /** The values of the items in the bucket for (`name`, `value`), one per key, in an unspecified order. */
  method ByIndex<V>(s: Store<V>, name: string, value: string) returns (r: Result<seq<Option<V>>, IndexError>, ghost keys: seq<string>)
    ensures ByIndexKeys(s, name, value).Failure? ==> r == Failure(ByIndexKeys(s, name, value).error)
    ensures ByIndexKeys(s, name, value).Success? ==>
      && Enumerates(keys, ByIndexKeys(s, name, value).value)
      && r == Success(ValuesOf(s.items, keys))
    ensures Consistent(s) && r.Success? ==> forall i :: 0 <= i < |r.value| ==> r.value[i].Some?
  {
    var matched := ByIndexKeys(s, name, value);
    keys := [];
    match matched
    case Failure(e) =>
      r := Failure(e);
    case Success(found) =>
      var listed := Enumerate(found);
      keys := listed;
      r := Success(ValuesOf(s.items, listed));
      if Consistent(s) {
        ConsistentKeysAreLive(s, name, value);
      }
  }

  /**
   The index values that have a bucket in index `name`, each once, in an unspecified
   order; empty for an unknown name. A bucket that has become empty is still listed.
   */
  method ListIndexFuncValues<V>(s: Store<V>, name: string) returns (values: seq<string>)
    ensures Enumerates(values, IndexOf(s.indices, name).Keys)
    ensures name !in s.indices ==> values == []
  {
    values := Enumerate(IndexOf(s.indices, name).Keys);
  }

  // ---------------------------------------------------------------------------
  // Properties

  /** The invariant is bucket-for-bucket agreement with the indices rebuilt from the items. */
  lemma ConsistentIffAgreesWithRebuild<V>(s: Store<V>)
    ensures Consistent(s) <==> forall n, v :: Bucket(s.indices, n, v) == Bucket(Rebuild(s.indexers, s.items), n, v)
  {
    forall n, v
      ensures Bucket(Rebuild(s.indexers, s.items), n, v) == Indexed(s.indexers, n, v, s.items)
    {
      RebuildBucket(s.indexers, s.items, n, v);
    }
  }

  /** After an upsert the key holds the new value and every other key is untouched. */
  lemma GetAfterAdd<V>(s: Store<V>, key: string, obj: V)
    ensures Get(Add(s, key, obj), key) == Some(obj)
    ensures forall k :: k != key ==> Get(Add(s, key, obj), k) == Get(s, k)
  {
  }

  /** After a delete the key is absent and every other key is untouched. */
  lemma GetAfterDelete<V>(s: Store<V>, key: string)
    ensures Get(Delete(s, key), key) == None
    ensures forall k :: k != key ==> Get(Delete(s, key), k) == Get(s, k)
  {
  }

  /** Deleting an absent key changes neither the items nor the indices. */
  lemma DeleteAbsentIsNoOp<V>(s: Store<V>, key: string)
    requires key !in s.items
    ensures Delete(s, key) == s
  {
  }

  /** Overwriting a key has the same effect as deleting it and then inserting it. */
  lemma UpsertIsDeleteThenAdd<V>(s: Store<V>, key: string, obj: V)
    ensures Add(s, key, obj) == Add(Delete(s, key), key, obj)
  {
  }

  /**
   When every function succeeds on the new value (and on the overwritten one, if any), an
   upsert takes the key out of exactly the buckets of its old value and into exactly those
   of the new one.
   */
  lemma UpsertEffect<V>(s: Store<V>, key: string, obj: V)
    requires Succeeds(s.indexers, obj)
    requires key in s.items ==> Succeeds(s.indexers, s.items[key])
    ensures forall n, v ::
      Bucket(Add(s, key, obj).indices, n, v) ==
        (if key in s.items && v in IndexValues(s.indexers, n, s.items[key]) then Bucket(s.indices, n, v) - {key} else Bucket(s.indices, n, v))
        + (if v in IndexValues(s.indexers, n, obj) then {key} else {})
  {
    var cleared := if key in s.items then DeleteFromIndices(s.indexers, s.indices, s.items[key], key).indices else s.indices;
    if key in s.items {
      DeleteEffect(s.indexers, s.indices, s.items[key], key);
    }
    InsertEffect(s.indexers, cleared, obj, key);
  }

  /**
   Overwriting moves membership: the key joins every bucket of the new value, and leaves
   every bucket that only the old value produced.
   */
  lemma UpdateMovesMembership<V>(s: Store<V>, key: string, obj: V)
    requires key in s.items
    requires Succeeds(s.indexers, s.items[key]) && Succeeds(s.indexers, obj)
    ensures forall n, v :: v in IndexValues(s.indexers, n, obj) ==> key in Bucket(Update(s, key, obj).indices, n, v)
    ensures forall n, v ::
      v in IndexValues(s.indexers, n, s.items[key]) && v !in IndexValues(s.indexers, n, obj) ==>
        key !in Bucket(Update(s, key, obj).indices, n, v)
  {
    UpsertEffect(s, key, obj);
    assert Update(s, key, obj) == Add(s, key, obj);
  }

  /** `Add` keeps the indices consistent when the functions succeed on the values involved. */
  lemma AddPreservesConsistency<V>(s: Store<V>, key: string, obj: V)
    requires Consistent(s) && Succeeds(s.indexers, obj)
    requires key in s.items ==> Succeeds(s.indexers, s.items[key])
    ensures Consistent(Add(s, key, obj))
  {
    var r := Add(s, key, obj);
    UpsertEffect(s, key, obj);
    forall n, v, k
      ensures k in Bucket(r.indices, n, v) <==> k in r.items && v in IndexValues(r.indexers, n, r.items[k])
    {
      if k != key {
        assert k in Bucket(r.indices, n, v) <==> k in Bucket(s.indices, n, v);
      }
    }
  }

  /** `Update` keeps the indices consistent when the functions succeed on the values involved. */
  lemma UpdatePreservesConsistency<V>(s: Store<V>, key: string, obj: V)
    requires Consistent(s) && Succeeds(s.indexers, obj)
    requires key in s.items ==> Succeeds(s.indexers, s.items[key])
    ensures Consistent(Update(s, key, obj))
  {
    AddPreservesConsistency(s, key, obj);
    assert Update(s, key, obj) == Add(s, key, obj);
  }

  /**
   `Delete` keeps the indices consistent when the functions succeed on the deleted value;
   afterwards the key is in no bucket.
   */
  lemma DeletePreservesConsistency<V>(s: Store<V>, key: string)
    requires Consistent(s)
    requires key in s.items ==> Succeeds(s.indexers, s.items[key])
    ensures Consistent(Delete(s, key))
    ensures forall n, v :: key !in Bucket(Delete(s, key).indices, n, v)
  {
    var r := Delete(s, key);
    if key in s.items {
      DeleteEffect(s.indexers, s.indices, s.items[key], key);
      forall n, v, k
        ensures k in Bucket(r.indices, n, v) <==> k in r.items && v in IndexValues(r.indexers, n, r.items[k])
      {
        if k != key {
          assert k in Bucket(r.indices, n, v) <==> k in Bucket(s.indices, n, v);
        }
      }
    }
  }

  /** In a consistent store every index lookup reports only live keys, so no entry is `None`. */
  lemma ConsistentKeysAreLive<V>(s: Store<V>, name: string, value: string)
    requires Consistent(s)
    ensures Bucket(s.indices, name, value) <= s.items.Keys
  {
  }

  /**
   In a consistent store, `Index` reports exactly the live keys whose item shares an index
   value with the probe.
   */
  lemma IndexMatchesItems<V>(s: Store<V>, name: string, probe: V)
    requires Consistent(s) && IndexKeys(s, name, probe).Success?
    ensures IndexKeys(s, name, probe).value ==
      set k | k in s.items && IndexValues(s.indexers, name, s.items[k]) * IndexValues(s.indexers, name, probe) != {}
  {
    var found := IndexKeys(s, name, probe).value;
    forall k | k in s.items && IndexValues(s.indexers, name, s.items[k]) * IndexValues(s.indexers, name, probe) != {}
      ensures k in found
    {
      var v :| v in IndexValues(s.indexers, name, s.items[k]) * IndexValues(s.indexers, name, probe);
      assert k in Bucket(s.indices, name, v);
    }
    forall k | k in found
      ensures k in s.items && IndexValues(s.indexers, name, s.items[k]) * IndexValues(s.indexers, name, probe) != {}
    {
      var v :| v in IndexValues(s.indexers, name, probe) && k in Bucket(s.indices, name, v);
      assert v in IndexValues(s.indexers, name, s.items[k]) * IndexValues(s.indexers, name, probe);
    }
  }

  /** In a consistent store, `ByIndex` reports exactly the live keys indexed under `value`. */
  lemma ByIndexMatchesItems<V>(s: Store<V>, name: string, value: string)
    requires Consistent(s) && name in Names(s.indexers)
    ensures ByIndexKeys(s, name, value) == Success(set k | k in s.items && value in IndexValues(s.indexers, name, s.items[k]))
  {
    assert Bucket(s.indices, name, value) == set k | k in s.items && value in IndexValues(s.indexers, name, s.items[k]);
  }

  /** In a consistent store, every value some live item is indexed under has a bucket, so it is listed. */
  lemma PopulatedValuesAreListed<V>(s: Store<V>, name: string, key: string)
    requires Consistent(s) && key in s.items
    ensures IndexValues(s.indexers, name, s.items[key]) <= IndexOf(s.indices, name).Keys
  {
    forall v | v in IndexValues(s.indexers, name, s.items[key])
      ensures v in IndexOf(s.indices, name).Keys
    {
      assert key in Bucket(s.indices, name, v);
    }
  }
}
