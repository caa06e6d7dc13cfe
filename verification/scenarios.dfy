/** A worked example: one index over an item's colour, followed through upserts. */
module Scenarios {
  import opened Wrappers
  import opened IndexEngine
  import opened ThreadSafeStore

  datatype Widget = Widget(color: string)

  /** Indexes a widget under its colour; never fails. */
  function ByColor(w: Widget): Result<seq<string>, string>
  {
    Success([w.color])
  }

  /** A registry in which `byColor` indexes widgets by colour and no function ever fails. */
  ghost predicate ColorRegistry(reg: Indexers<Widget>)
  {
    && Find(reg, "byColor") == Some(ByColor)
    && forall w :: Succeeds(reg, w)
  }

  /** The registry holding only `byColor` is such a registry. */
  lemma SingleColorRegistry()
    ensures var reg := [Indexer("byColor", ByColor)];
      UniqueNames(reg) && ColorRegistry(reg)
  {
  }

  /** Under the consistency invariant, the colour bucket holds exactly the live keys of that colour. */
  lemma ColorBucket(s: Store<Widget>, c: string)
    requires ColorRegistry(s.indexers) && Consistent(s)
    ensures ByIndexKeys(s, "byColor", c) == Success(set k | k in s.items && s.items[k].color == c)
  {
    ByIndexMatchesItems(s, "byColor", c);
    forall k | k in s.items
      ensures c in IndexValues(s.indexers, "byColor", s.items[k]) <==> s.items[k].color == c
    {
      assert IndexValues(s.indexers, "byColor", s.items[k]) == {s.items[k].color};
    }
    assert Bucket(s.indices, "byColor", c) == set k | k in s.items && s.items[k].color == c;
  }

  /** Painting a widget keeps a store over such a registry consistent. */
  lemma PaintStep(s: Store<Widget>, key: string, c: string)
    requires ColorRegistry(s.indexers) && Consistent(s)
    ensures var r := Add(s, key, Widget(c));
      && r.indexers == s.indexers
      && r.items == s.items[key := Widget(c)]
      && Consistent(r)
  {
    assert Succeeds(s.indexers, Widget(c));
    if key in s.items {
      assert Succeeds(s.indexers, s.items[key]);
    }
    AddPreservesConsistency(s, key, Widget(c));
  }

  /** What the buckets hold once `a` is red and `b` blue, and once both are blue. */
  lemma ObserveColors(s2: Store<Widget>, s3: Store<Widget>, a: string, b: string)
    requires ColorRegistry(s2.indexers) && Consistent(s2) && s2.items == map[a := Widget("red"), b := Widget("blue")]
    requires ColorRegistry(s3.indexers) && Consistent(s3) && s3.items == map[a := Widget("blue"), b := Widget("blue")]
    requires a != b
    ensures ByIndexKeys(s2, "byColor", "red") == Success({a})
    ensures ByIndexKeys(s3, "byColor", "red") == Success({})
    ensures ByIndexKeys(s3, "byColor", "blue") == Success({a, b})
  {
    ColorBucket(s2, "red");
    ColorBucket(s3, "red");
    ColorBucket(s3, "blue");
    assert (set k | k in s2.items && s2.items[k].color == "red") == {a};
    assert (set k | k in s3.items && s3.items[k].color == "red") == {};
    assert (set k | k in s3.items && s3.items[k].color == "blue") == {a, b};
  }

  /**
   Two widgets are stored under distinct keys, one red and one blue; then the red one is
   repainted blue. The red bucket empties and the blue bucket holds both keys; an unknown
   index name is an error.
   */
  lemma RecolorScenario(reg: Indexers<Widget>, a: string, b: string)
    requires ColorRegistry(reg) && "missing" !in Names(reg) && a != b
    ensures var s0 := NewThreadSafeStore(reg, map[]);
      var s1 := Add(s0, a, Widget("red"));
      var s2 := Add(s1, b, Widget("blue"));
      var s3 := Add(s2, a, Widget("blue"));
      && ByIndexKeys(s2, "byColor", "red") == Success({a})
      && ByIndexKeys(s3, "byColor", "red") == Success({})
      && ByIndexKeys(s3, "byColor", "blue") == Success({a, b})
      && ByIndexKeys(s3, "missing", "red") == Failure(IndexNotFound("missing"))
  {
    var s0 := NewThreadSafeStore(reg, map[]);
    var s1 := Add(s0, a, Widget("red"));
    var s2 := Add(s1, b, Widget("blue"));
    var s3 := Add(s2, a, Widget("blue"));
    assert Consistent(s1) && s1.indexers == reg && s1.items == map[a := Widget("red")] by {
      PaintStep(s0, a, "red");
    }
    assert Consistent(s2) && s2.indexers == reg && s2.items == map[a := Widget("red"), b := Widget("blue")] by {
      PaintStep(s1, b, "blue");
    }
    assert Consistent(s3) && s3.indexers == reg && s3.items == map[a := Widget("blue"), b := Widget("blue")] by {
      PaintStep(s2, a, "blue");
    }
    ObserveColors(s2, s3, a, b);
  }
}
