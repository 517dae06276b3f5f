/**
 * The traversal cursor (`Iterator` / `CIterator`): a bucket index `vectIt`, a
 * position `listIt` inside that bucket and the bound `vectEnd`, walking the
 * buckets of one map while that map is not changed. The cursor keeps the
 * bucket vector it was made from as `store`.
 */
module Cursors {
  import opened BucketStore

  /** The first bucket at or after `i` that holds an entry, or |store| if none does. */
  function FirstNonEmpty<K, V>(store: seq<Bucket<K, V>>, i: nat): (r: nat)
    requires i <= |store|
    ensures i <= r <= |store|
    ensures r < |store| ==> store[r] != []
    ensures forall t :: i <= t < r ==> store[t] == []
    decreases |store| - i
  {
    if i == |store| || store[i] != [] then i else FirstNonEmpty(store, i + 1)
  }

  /** Two different positions of entries lie at different places of the flattened store. */
  lemma PositionsDiffer<K, V>(store: seq<Bucket<K, V>>, i: nat, j: nat, i2: nat, j2: nat)
    ensures i < |store| && j < |store[i]| && i2 < |store| && j2 < |store[i2]| && (i != i2 || j != j2) ==>
              |Flatten(store[..i])| + j != |Flatten(store[..i2])| + j2
  {
    if i2 < |store| && i < i2 {
      OffsetGap(store, i, i2);
    } else if i < |store| && i2 < i {
      OffsetGap(store, i2, i);
    }
  }

  class Cursor<K, V> {
    const store: seq<Bucket<K, V>>
    const vectEnd: nat
    var vectIt: nat
    var listIt: nat

    /** The bound is the end of the bucket vector; off the end, the cursor names an entry. */
    ghost predicate Valid()
      reads this
    {
      && vectEnd == |store|
      && vectIt <= vectEnd
      && (vectIt < vectEnd ==> listIt < |store[vectIt]|)
    }

    /** The end state: the bucket index has reached the bound. */
    predicate AtEnd()
      reads this
    {
      vectIt == vectEnd
    }

    /**
     * How many entries a traversal has passed when it stands here: the place of
     * the current entry in the flattened store, or the entry count at the end.
     */
    ghost function Index(): (r: nat)
      reads this
      requires Valid()
      ensures r <= |Flatten(store)|
      ensures r == |Flatten(store)| <==> AtEnd()
    {
      assert store[..|store|] == store;
      if vectIt < vectEnd then
        OffsetGap(store, vectIt, |store|);
        |Flatten(store[..vectIt])| + listIt
      else
        |Flatten(store[..vectIt])|
    }

    /** Builds a cursor at bucket `start`, skipping forward over empty buckets. */
    constructor (store: seq<Bucket<K, V>>, start: nat)
      requires start <= |store|
      ensures this.store == store && Valid()
      ensures vectIt == FirstNonEmpty(store, start)
      ensures vectIt < vectEnd ==> listIt == 0
      ensures Index() == |Flatten(store[..start])|
    {
      this.store := store;
      vectEnd := |store|;
      vectIt := start;
      listIt := 0;
      new;
      SkipEmpty();
    }

    /**
     * The loop shared by the constructor and `++`: move `vectIt` past empty
     * buckets and, if an entry is found, stand on the first one.
     */
    method SkipEmpty()
      requires vectEnd == |store| && vectIt <= vectEnd
      modifies this
      ensures Valid()
      ensures vectIt == FirstNonEmpty(store, old(vectIt))
      ensures vectIt < vectEnd ==> listIt == 0
      ensures vectIt == vectEnd ==> listIt == old(listIt)
      ensures Index() == |Flatten(store[..old(vectIt)])|
    {
      while vectIt != vectEnd && store[vectIt] == []
        invariant old(vectIt) <= vectIt <= vectEnd
        invariant listIt == old(listIt)
        invariant FirstNonEmpty(store, vectIt) == FirstNonEmpty(store, old(vectIt))
        invariant |Flatten(store[..vectIt])| == |Flatten(store[..old(vectIt)])|
        decreases vectEnd - vectIt
      {
        FlattenSnoc(store, vectIt);
        vectIt := vectIt + 1;
      }
      if vectIt != vectEnd {
        listIt := 0;
      }
    }

    /** The entry the cursor stands on (`operator*`): the next entry of the traversal. */
    function Deref(): (e: Entry<K, V>)
      reads this
      requires Valid() && !AtEnd()
      ensures Index() < |Flatten(store)| && e == Flatten(store)[Index()]
    {
      FlatPosition(store, vectIt, listIt);
      store[vectIt][listIt]
    }

    /**
     * `operator++`: the next entry of the same bucket, else the first entry of the
     * next non-empty bucket, else the end. Either way exactly one entry is passed.
     */
    method Next()
      requires Valid() && !AtEnd()
      modifies this
      ensures Valid() && Index() == old(Index()) + 1
      ensures old(listIt) + 1 < |store[old(vectIt)]| ==>
                vectIt == old(vectIt) && listIt == old(listIt) + 1
      ensures old(listIt) + 1 >= |store[old(vectIt)]| ==>
                vectIt == FirstNonEmpty(store, old(vectIt) + 1)
    {
      if listIt + 1 < |store[vectIt]| {
        listIt := listIt + 1;
        return;
      }
      FlattenSnoc(store, vectIt);
      vectIt := vectIt + 1;
      SkipEmpty();
    }

    /**
     * `operator==` for cursors over the same store: any two cursors at the end are
     * equal, otherwise bucket and position must agree. This is the same as
     * standing at the same place of the traversal.
     */
    function Equals(other: Cursor<K, V>): (r: bool)
      reads this, other
      requires Valid() && other.Valid() && store == other.store
      ensures r <==> Index() == other.Index()
    {
      PositionsDiffer(store, vectIt, listIt, other.vectIt, other.listIt);
      (vectIt == vectEnd && vectIt == other.vectIt) || (vectIt == other.vectIt && listIt == other.listIt)
    }
  }

  /**
   * The loop `for (it = start; it != finish; ++it)` over a range of cursors of one
   * store: it passes exactly the entries from `c`'s place up to `finish`'s, in
   * traversal order, and leaves `c` equal to `finish`.
   */
  method Collect<K, V>(c: Cursor<K, V>, finish: Cursor<K, V>) returns (es: seq<Entry<K, V>>)
    requires c != finish && c.Valid() && finish.Valid() && c.store == finish.store
    requires c.Index() <= finish.Index()
    modifies c
    ensures c.Valid() && c.Index() == finish.Index()
    ensures es == Flatten(c.store)[old(c.Index())..finish.Index()]
  {
    ghost var flat := Flatten(c.store);
    ghost var start := c.Index();
    es := [];
    while !c.Equals(finish)
      invariant c.Valid() && start <= c.Index() <= finish.Index()
      invariant es == flat[start..c.Index()]
      decreases finish.Index() - c.Index()
    {
      ghost var n := c.Index();
      es := es + [c.Deref()];
      c.Next();
      assert flat[start..n + 1] == flat[start..n] + [flat[n]];
    }
  }
}
