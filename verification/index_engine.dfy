/**
 The index engine behind the thread-safe store: the registry of index functions, the
 derived indices (index name -> index value -> set of primary keys), and the two
 maintenance passes `updateIndices` and `deleteFromIndices` that keep them in step with
 the stored items.
 */
module IndexEngine {
  import opened Wrappers

  /** An index function: the index values derived from a value, or an error message. */
  type IndexFunc<!V> = V -> Result<seq<string>, string>

  /** One entry of the registry: an index name and its function. */
  datatype Indexer<!V> = Indexer(name: string, eval: IndexFunc<V>)

  /** The names registered in `reg`. */
  function Names<V>(reg: seq<Indexer<V>>): set<string>
  {
    if reg == [] then {} else {reg[0].name} + Names(reg[1..])
  }

  /** Each name is registered at most once, as the keys of a map are. */
  predicate UniqueNames<V>(reg: seq<Indexer<V>>)
  {
    reg == [] || (reg[0].name !in Names(reg[1..]) && UniqueNames(reg[1..]))
  }

  /**
   The registry (Go's `Indexers` map), listed in the order a loop over it visits
   the entries. The order matters only when an index function fails part-way.
   */
  type Indexers<!V> = reg: seq<Indexer<V>> | UniqueNames(reg) witness []

  /** One index: index value -> bucket of primary keys. */
  type Index = map<string, set<string>>

  /** All indices: index name -> index. */
  type Indices = map<string, Index>

  /** The function registered under `name`, if any. */
  function Find<V>(reg: seq<Indexer<V>>, name: string): (r: Option<IndexFunc<V>>)
    ensures r.Some? <==> name in Names(reg)
    ensures r.Some? ==> exists i :: 0 <= i < |reg| && reg[i].name == name && r.value == reg[i].eval
    decreases |reg|
  {
    if reg == [] then None
    else if reg[0].name == name then Some(reg[0].eval)
    else Find(reg[1..], name)
  }

  /** Every registered index function succeeds on `x`. */
  predicate Succeeds<V>(reg: seq<Indexer<V>>, x: V)
  {
    reg == [] || (reg[0].eval(x).Success? && Succeeds(reg[1..], x))
  }

  /**
   The index values that the function registered as `name` derives from `x`; empty when
   no function is registered under `name` or when it fails.
   */
  function IndexValues<V>(reg: seq<Indexer<V>>, name: string, x: V): set<string>
  {
    match Find(reg, name)
    case None => {}
    case Some(f) => if f(x).Success? then set v | v in f(x).value else {}
  }

  /** The index called `name`; a missing index reads as empty. */
  function IndexOf(indices: Indices, name: string): Index
  {
    if name in indices then indices[name] else map[]
  }

  /** The bucket for `value` in one index; a missing bucket reads as empty. */
  function BucketIn(index: Index, value: string): set<string>
  {
    if value in index then index[value] else {}
  }

  /** The bucket for (`name`, `value`); a missing index or bucket reads as empty. */
  function Bucket(indices: Indices, name: string, value: string): set<string>
  {
    BucketIn(IndexOf(indices, name), value)
  }

  /** The state of the indices after a maintenance pass, and the error that ended it early. */
  datatype Reconciled = Reconciled(indices: Indices, err: Option<string>)

  /** Adds `key` to the bucket of each of `values`, creating missing buckets. */
  function InsertAll(index: Index, values: seq<string>, key: string): (r: Index)
    ensures r.Keys == index.Keys + (set v | v in values)
    ensures forall v :: v in r ==> r[v] == BucketIn(index, v) + (if v in values then {key} else {})
    decreases |values|
  {
    if values == [] then index
    else InsertAll(index[values[0] := BucketIn(index, values[0]) + {key}], values[1..], key)
  }

  /** Removes `key` from the existing bucket of each of `values`; never creates or drops a bucket. */
  function RemoveAll(index: Index, values: seq<string>, key: string): (r: Index)
    ensures r.Keys == index.Keys
    ensures forall v :: v in r ==> r[v] == if v in values then index[v] - {key} else index[v]
    decreases |values|
  {
    if values == [] then index
    else
      var v := values[0];
      RemoveAll(if v in index then index[v := index[v] - {key}] else index, values[1..], key)
  }

  /**
   The insertion half of `updateIndices`: for each registered function in turn, evaluate it
   on `x` and put `key` into the buckets of the resulting values, creating the index and the
   buckets as needed. The first failing function ends the pass, leaving the earlier indices
   updated.
   */
  function InsertIntoIndices<V>(reg: seq<Indexer<V>>, indices: Indices, x: V, key: string): (r: Reconciled)
    ensures r.err.None? <==> Succeeds(reg, x)
    ensures forall n, v :: Bucket(r.indices, n, v) <= Bucket(indices, n, v) + {key}
    ensures forall n, v :: Bucket(indices, n, v) <= Bucket(r.indices, n, v)
    decreases |reg|
  {
    if reg == [] then Reconciled(indices, None)
    else
      match reg[0].eval(x)
      case Failure(e) => Reconciled(indices, Some(e))
      case Success(values) =>
        var n := reg[0].name;
        InsertIntoIndices(reg[1..], indices[n := InsertAll(IndexOf(indices, n), values, key)], x, key)
  }

  /**
   `deleteFromIndices`: for each registered function in turn, evaluate it on `x` and take
   `key` out of the buckets of the resulting values that exist. The first failing function
   ends the pass. No index or bucket is ever created or dropped.
   */
  function DeleteFromIndices<V>(reg: seq<Indexer<V>>, indices: Indices, x: V, key: string): (r: Reconciled)
    ensures r.err.None? <==> Succeeds(reg, x)
    ensures r.indices.Keys == indices.Keys
    ensures forall n :: n in indices ==> r.indices[n].Keys == indices[n].Keys
    ensures forall n, v :: Bucket(r.indices, n, v) <= Bucket(indices, n, v)
    ensures forall n, v :: Bucket(indices, n, v) - {key} <= Bucket(r.indices, n, v)
    decreases |reg|
  {
    if reg == [] then Reconciled(indices, None)
    else
      match reg[0].eval(x)
      case Failure(e) => Reconciled(indices, Some(e))
      case Success(values) =>
        var n := reg[0].name;
        var pruned := if n in indices then indices[n := RemoveAll(indices[n], values, key)] else indices;
        DeleteFromIndices(reg[1..], pruned, x, key)
  }

  /**
   `updateIndices`: when there is a previous value, first take `key` out of its buckets
   (the error of that pass is discarded), then insert `key` for the new value. The error
   reported is that of the insertion pass.
   */
  function UpdateIndices<V>(reg: seq<Indexer<V>>, indices: Indices, previous: Option<V>, x: V, key: string): (r: Reconciled)
    ensures r.err.None? <==> Succeeds(reg, x)
    ensures forall n, v :: Bucket(r.indices, n, v) <= Bucket(indices, n, v) + {key}
    ensures forall n, v :: Bucket(indices, n, v) - {key} <= Bucket(r.indices, n, v)
  {
    var cleared := if previous.Some? then DeleteFromIndices(reg, indices, previous.value, key).indices else indices;
    InsertIntoIndices(reg, cleared, x, key)
  }

  // ---------------------------------------------------------------------------
  // The registry

  /** A name not registered yields no index values. */
  lemma UnregisteredYieldsNothing<V>(reg: seq<Indexer<V>>, name: string, x: V)
    requires name !in Names(reg)
    ensures IndexValues(reg, name, x) == {}
  {
  }

  /** Looking up a name skips the head entry exactly when the head has another name. */
  lemma IndexValuesStep<V>(reg: seq<Indexer<V>>, name: string, x: V)
    requires reg != [] && reg[0].eval(x).Success?
    ensures name == reg[0].name ==> IndexValues(reg, name, x) == set v | v in reg[0].eval(x).value
    ensures name != reg[0].name ==> IndexValues(reg, name, x) == IndexValues(reg[1..], name, x)
  {
  }

  // ---------------------------------------------------------------------------
  // What the maintenance passes do when every index function succeeds

  /** The head step of the insertion pass touches only the head's index. */
  lemma InsertHead<V>(reg: seq<Indexer<V>>, indices: Indices, x: V, key: string)
    requires reg != [] && reg[0].eval(x).Success?
    ensures var values := reg[0].eval(x).value;
      var next := indices[reg[0].name := InsertAll(IndexOf(indices, reg[0].name), values, key)];
      && next.Keys == indices.Keys + {reg[0].name}
      && (forall n :: n in next ==> next[n].Keys == IndexOf(indices, n).Keys + (if n == reg[0].name then set v | v in values else {}))
      && (forall n, v :: Bucket(next, n, v) == Bucket(indices, n, v) + (if n == reg[0].name && v in values then {key} else {}))
  {
  }

  /** When every function succeeds, insertion creates exactly the registered indices that were missing. */
  lemma {:induction false} InsertCreatesIndices<V>(reg: seq<Indexer<V>>, indices: Indices, x: V, key: string)
    requires Succeeds(reg, x)
    ensures InsertIntoIndices(reg, indices, x, key).indices.Keys == indices.Keys + Names(reg)
    decreases |reg|
  {
    if reg != [] {
      var next := indices[reg[0].name := InsertAll(IndexOf(indices, reg[0].name), reg[0].eval(x).value, key)];
      InsertCreatesIndices(reg[1..], next, x, key);
    }
  }

  /**
   When every function succeeds on `x`, insertion creates in each index exactly the
   buckets of the values `x` is indexed under.
   */
  lemma {:induction false} InsertCreatesBuckets<V>(reg: seq<Indexer<V>>, indices: Indices, x: V, key: string)
    requires UniqueNames(reg) && Succeeds(reg, x)
    ensures var r := InsertIntoIndices(reg, indices, x, key).indices;
      forall n :: n in r ==> r[n].Keys == IndexOf(indices, n).Keys + IndexValues(reg, n, x)
    decreases |reg|
  {
    if reg != [] {
      var n0 := reg[0].name;
      var next := indices[n0 := InsertAll(IndexOf(indices, n0), reg[0].eval(x).value, key)];
      InsertHead(reg, indices, x, key);
      InsertCreatesBuckets(reg[1..], next, x, key);
      var r := InsertIntoIndices(reg, indices, x, key).indices;
      assert r == InsertIntoIndices(reg[1..], next, x, key).indices;
      forall n | n in r
        ensures r[n].Keys == IndexOf(indices, n).Keys + IndexValues(reg, n, x)
      {
        IndexValuesStep(reg, n, x);
        if n == n0 {
          UnregisteredYieldsNothing(reg[1..], n, x);
        }
      }
    }
  }

  /**
   When every function succeeds on `x`, insertion adds `key` to exactly the buckets of the
   values `x` is indexed under and changes no other bucket.
   */
  lemma {:induction false} InsertEffect<V>(reg: seq<Indexer<V>>, indices: Indices, x: V, key: string)
    requires UniqueNames(reg) && Succeeds(reg, x)
    ensures var r := InsertIntoIndices(reg, indices, x, key).indices;
      forall n, v :: Bucket(r, n, v) == Bucket(indices, n, v) + (if v in IndexValues(reg, n, x) then {key} else {})
    decreases |reg|
  {
    if reg != [] {
      var n0 := reg[0].name;
      var next := indices[n0 := InsertAll(IndexOf(indices, n0), reg[0].eval(x).value, key)];
      InsertHead(reg, indices, x, key);
      InsertEffect(reg[1..], next, x, key);
      var r := InsertIntoIndices(reg, indices, x, key).indices;
      assert r == InsertIntoIndices(reg[1..], next, x, key).indices;
      forall n, v
        ensures Bucket(r, n, v) == Bucket(indices, n, v) + (if v in IndexValues(reg, n, x) then {key} else {})
      {
        IndexValuesStep(reg, n, x);
        if n == n0 {
          UnregisteredYieldsNothing(reg[1..], n, x);
        }
      }
    }
  }

  /** The head step of the deletion pass touches only the head's index. */
  lemma DeleteHead<V>(reg: seq<Indexer<V>>, indices: Indices, x: V, key: string)
    requires reg != [] && reg[0].eval(x).Success?
    ensures var n0 := reg[0].name;
      var values := reg[0].eval(x).value;
      var next := if n0 in indices then indices[n0 := RemoveAll(indices[n0], values, key)] else indices;
      forall n, v :: Bucket(next, n, v) == if n == n0 && v in values then Bucket(indices, n, v) - {key} else Bucket(indices, n, v)
  {
  }

  /**
   When every function succeeds on `x`, deletion takes `key` out of exactly the buckets of
   the values `x` is indexed under and changes no other bucket.
   */
  lemma {:induction false} DeleteEffect<V>(reg: seq<Indexer<V>>, indices: Indices, x: V, key: string)
    requires UniqueNames(reg) && Succeeds(reg, x)
    ensures var r := DeleteFromIndices(reg, indices, x, key).indices;
      forall n, v :: Bucket(r, n, v) == if v in IndexValues(reg, n, x) then Bucket(indices, n, v) - {key} else Bucket(indices, n, v)
    decreases |reg|
  {
    if reg != [] {
      var n0 := reg[0].name;
      var values := reg[0].eval(x).value;
      var next := if n0 in indices then indices[n0 := RemoveAll(indices[n0], values, key)] else indices;
      DeleteHead(reg, indices, x, key);
      DeleteEffect(reg[1..], next, x, key);
      var r := DeleteFromIndices(reg, indices, x, key).indices;
      assert r == DeleteFromIndices(reg[1..], next, x, key).indices;
      forall n, v
        ensures Bucket(r, n, v) == if v in IndexValues(reg, n, x) then Bucket(indices, n, v) - {key} else Bucket(indices, n, v)
      {
        IndexValuesStep(reg, n, x);
        if n == n0 {
          UnregisteredYieldsNothing(reg[1..], n, x);
        }
      }
    }
  }

  // ---------------------------------------------------------------------------
  // The reference: indices rebuilt from scratch

  /** The index values the function `name` derives from some item. */
  ghost function Produced<V>(reg: seq<Indexer<V>>, name: string, items: map<string, V>): set<string>
  {
    set k, v | k in items && v in IndexValues(reg, name, items[k]) :: v
  }

  /** The keys whose item the function `name` indexes under `value`. */
  ghost function Indexed<V>(reg: seq<Indexer<V>>, name: string, value: string, items: map<string, V>): set<string>
  {
    set k | k in items && value in IndexValues(reg, name, items[k])
  }

  /**
   The indices a full rebuild from `items` yields when every function succeeds: nothing for
   an empty item set; otherwise one index per registered name, holding one bucket per
   produced value.
   */
  ghost function Rebuild<V>(reg: seq<Indexer<V>>, items: map<string, V>): Indices
  {
    if items == map[] then map[]
    else map n | n in Names(reg) :: map v | v in Produced(reg, n, items) :: Indexed(reg, n, v, items)
  }

  /** Every bucket of the rebuilt indices holds exactly the keys indexed under its value. */
  lemma RebuildBucket<V>(reg: seq<Indexer<V>>, items: map<string, V>, name: string, value: string)
    ensures Bucket(Rebuild(reg, items), name, value) == Indexed(reg, name, value, items)
  {
  }

  /** Each rebuilt index holds exactly one bucket per value some item is indexed under. */
  lemma RebuildIndexValues<V>(reg: seq<Indexer<V>>, items: map<string, V>, name: string)
    ensures IndexOf(Rebuild(reg, items), name).Keys == Produced(reg, name, items)
  {
  }

  /** Adding an item adds the values it is indexed under to those produced. */
  lemma ProducedGrows<V>(reg: seq<Indexer<V>>, items: map<string, V>, name: string, key: string, x: V)
    requires key !in items
    ensures Produced(reg, name, items[key := x]) == Produced(reg, name, items) + IndexValues(reg, name, x)
  {
    var grown := items[key := x];
    forall v | v in Produced(reg, name, items)
      ensures v in Produced(reg, name, grown)
    {
      var k :| k in items && v in IndexValues(reg, name, items[k]);
      assert k in grown && grown[k] == items[k];
    }
    forall v | v in IndexValues(reg, name, x)
      ensures v in Produced(reg, name, grown)
    {
      assert key in grown && grown[key] == x;
    }
    forall v | v in Produced(reg, name, grown)
      ensures v in Produced(reg, name, items) + IndexValues(reg, name, x)
    {
      var k :| k in grown && v in IndexValues(reg, name, grown[k]);
      if k != key {
        assert k in items && items[k] == grown[k];
      }
    }
  }

  /** Adding an item adds its key to the keys indexed under each of its values. */
  lemma IndexedGrows<V>(reg: seq<Indexer<V>>, items: map<string, V>, name: string, value: string, key: string, x: V)
    requires key !in items
    ensures Indexed(reg, name, value, items[key := x])
         == Indexed(reg, name, value, items) + (if value in IndexValues(reg, name, x) then {key} else {})
  {
  }

  /** Two indices structures are equal when they have the same indices, buckets and bucket contents. */
  lemma IndicesEqual(a: Indices, b: Indices)
    requires a.Keys == b.Keys
    requires forall n :: n in a ==> a[n].Keys == b[n].Keys
    requires forall n, v :: Bucket(a, n, v) == Bucket(b, n, v)
    ensures a == b
  {
    forall n | n in a
      ensures a[n] == b[n]
    {
      forall v | v in a[n]
        ensures a[n][v] == b[n][v]
      {
        assert a[n][v] == Bucket(a, n, v);
        assert b[n][v] == Bucket(b, n, v);
      }
    }
  }

  /** Adding one item is the last step of a rebuild: insertion turns `Rebuild(items)` into `Rebuild(items[key := x])`. */
  lemma RebuildStep<V>(reg: seq<Indexer<V>>, items: map<string, V>, key: string, x: V)
    requires UniqueNames(reg) && Succeeds(reg, x) && key !in items
    ensures InsertIntoIndices(reg, Rebuild(reg, items), x, key).indices == Rebuild(reg, items[key := x])
  {
    var before := Rebuild(reg, items);
    var grown := items[key := x];
    var after := Rebuild(reg, grown);
    var r := InsertIntoIndices(reg, before, x, key).indices;
    assert r.Keys == after.Keys by {
      InsertCreatesIndices(reg, before, x, key);
    }
    forall n | n in r
      ensures r[n].Keys == after[n].Keys
    {
      InsertCreatesBuckets(reg, before, x, key);
      RebuildIndexValues(reg, items, n);
      RebuildIndexValues(reg, grown, n);
      ProducedGrows(reg, items, n, key, x);
      assert IndexOf(after, n) == after[n];
    }
    forall n, v
      ensures Bucket(r, n, v) == Bucket(after, n, v)
    {
      InsertEffect(reg, before, x, key);
      RebuildBucket(reg, items, n, v);
      RebuildBucket(reg, grown, n, v);
      IndexedGrows(reg, items, n, v, key, x);
    }
    IndicesEqual(r, after);
  }
}
