/**
 * The separate-chaining hash map: a vector of buckets updated in place, an entry
 * counter kept by hand, and a hasher. The ghost field `contents` is the map the
 * object stands for; `Valid` ties it to the buckets and the counter.
 */
module HashMaps {
  import opened Wrappers
  import opened BucketStore
  import opened ResizePolicy
  import opened Cursors

  /**
   * The scan of one bucket that every keyed operation performs: the index of the
   * first entry with the key, or the bucket length when there is none.
   */
  method ScanBucket<K(==, !new), V>(b: Bucket<K, V>, key: K) returns (j: nat)
    ensures j <= |b|
    ensures j < |b| ==> b[j].key == key
    ensures forall t :: 0 <= t < j ==> b[t].key != key
    ensures Search(b, key) == if j < |b| then Some(b[j].value) else None
  {
    j := 0;
    while j < |b| && b[j].key != key
      invariant j <= |b|
      invariant forall t :: 0 <= t < j ==> b[t].key != key
    {
      j := j + 1;
    }
    SearchStopsAt(b, key, j);
  }

  /** `vector::resize`: keep the first `n` buckets, padding with empty ones. */
  function Resized<K, V>(bs: seq<Bucket<K, V>>, n: nat): (r: seq<Bucket<K, V>>)
    ensures |r| == n
    ensures forall i :: 0 <= i < n ==> r[i] == if i < |bs| then bs[i] else []
  {
    if n <= |bs| then bs[..n] else bs + seq(n - |bs|, _ => [])
  }

  class HashMap<K(==, !new), V> {
    var buckets: seq<Bucket<K, V>>
    var sz: nat
    var hasher: K -> nat
    ghost var contents: map<K, V>

    /** Buckets, counter and abstract contents agree (the load condition aside). */
    ghost predicate Consistent()
      reads this
    {
      && Represents(buckets, hasher, contents)
      && sz == |Flatten(buckets)|
      && sz == |contents|
    }

    /** The invariant of every reachable map, including the load condition. */
    ghost predicate Valid()
      reads this
    {
      Consistent() && LoadOk(sz, |buckets|)
    }

    /** An empty map with one bucket and the given hasher. */
    constructor (h: K -> nat)
      ensures Valid() && contents == map[] && hasher == h
      ensures buckets == [[]] && sz == 0
    {
      buckets := Resized([], DefaultBucketCount);
      sz := 0;
      hasher := h;
      contents := map[];
      new;
      EmptyStore(buckets, hasher);
    }

    /**
     * The range and initializer-list constructors: insert each element in turn into
     * an empty map, so the first occurrence of a key wins.
     */
    constructor FromEntries(h: K -> nat, items: seq<Entry<K, V>>)
      ensures Valid() && contents == MapOf(items) && hasher == h
    {
      buckets := Resized([], DefaultBucketCount);
      sz := 0;
      hasher := h;
      contents := map[];
      new;
      EmptyStore(buckets, hasher);
      CopyRange(items);
    }

    /** The bucket of `key` (`get_hash`). */
    function GetHash(key: K): (r: nat)
      reads this
      requires |buckets| > 0
      ensures r == Slot(hasher, key, |buckets|)
    {
      RemainderIsMod(hasher(key), |buckets|);
      hasher(key) % |buckets|
    }

    function Size(): (r: nat)
      reads this
      requires Valid()
      ensures r == |contents|
    {
      sz
    }

    function Empty(): (r: bool)
      reads this
      requires Valid()
      ensures r <==> contents == map[]
    {
      sz == 0
    }

    /** Adds `element` unless its key is present; an existing value is never overwritten. */
    method Insert(element: Entry<K, V>)
      requires Valid()
      modifies this
      ensures Valid() && hasher == old(hasher)
      ensures element.key in old(contents) ==>
                contents == old(contents) && buckets == old(buckets) && sz == old(sz)
      ensures element.key !in old(contents) ==>
                contents == old(contents)[element.key := element.value] && sz == old(sz) + 1
    {
      var id := GetHash(element.key);
      var j := ScanBucket(buckets[id], element.key);
      assert Lookup(buckets, hasher, element.key) == Search(buckets[id], element.key);
      if j < |buckets[id]| {
        return;
      }
      InsertPreserves(buckets, hasher, contents, element);
      buckets := buckets[id := [element] + buckets[id]];
      sz := sz + 1;
      contents := contents[element.key := element.value];
      ResizeTable();
    }

    /** Removes the entry of `key` if there is one; a missing key is no error. */
    method Erase(key: K)
      requires Valid()
      modifies this
      ensures Valid() && hasher == old(hasher)
      ensures contents == old(contents) - {key}
      ensures key in old(contents) ==> sz == old(sz) - 1
      ensures key !in old(contents) ==> buckets == old(buckets) && sz == old(sz)
    {
      var id := GetHash(key);
      var j := ScanBucket(buckets[id], key);
      assert Lookup(buckets, hasher, key) == Search(buckets[id], key);
      if j == |buckets[id]| {
        assert contents - {key} == contents;
        return;
      }
      ErasePreserves(buckets, hasher, contents, key, j);
      buckets := buckets[id := buckets[id][..j] + buckets[id][j + 1..]];
      sz := sz - 1;
      contents := contents - {key};
      ResizeTable();
    }

    /**
     * `find`: a cursor on the entry of `key`, built by walking from the start of
     * the key's bucket until the key matches, or the end cursor when it is absent.
     */
    method Find(key: K) returns (c: Cursor<K, V>)
      requires Valid()
      ensures fresh(c) && c.Valid() && c.store == buckets
      ensures key in contents ==> !c.AtEnd() && c.Deref() == Entry(key, contents[key])
      ensures key !in contents ==> c.AtEnd()
    {
      var id := GetHash(key);
      var j := ScanBucket(buckets[id], key);
      assert Lookup(buckets, hasher, key) == Search(buckets[id], key);
      if j < |buckets[id]| {
        c := new Cursor(buckets, id);
        while c.Deref().key != key
          invariant fresh(c) && c.Valid() && c.store == buckets
          invariant c.vectIt == id && c.listIt <= j
          decreases j - c.listIt
        {
          c.Next();
        }
        SearchDistinct(buckets[id], c.listIt);
        return;
      }
      c := End();
    }

    /**
     * `operator[]`: the value of `key`, inserting `zero` (the default value) first
     * when the key is absent. After the insert the key is looked up again, since
     * the resize may have moved it; that second scan always finds it.
     */
    method Subscript(key: K, zero: V) returns (v: V)
      requires Valid()
      modifies this
      ensures Valid() && hasher == old(hasher)
      ensures key in old(contents) ==>
                v == old(contents)[key] && contents == old(contents) && buckets == old(buckets) && sz == old(sz)
      ensures key !in old(contents) ==>
                v == zero && contents == old(contents)[key := zero] && sz == old(sz) + 1
    {
      var id := GetHash(key);
      var j := ScanBucket(buckets[id], key);
      assert Lookup(buckets, hasher, key) == Search(buckets[id], key);
      if j < |buckets[id]| {
        v := buckets[id][j].value;
        return;
      }
      InsertPreserves(buckets, hasher, contents, Entry(key, zero));
      buckets := buckets[id := [Entry(key, zero)] + buckets[id]];
      sz := sz + 1;
      contents := contents[key := zero];
      ResizeTable();

      id := GetHash(key);
      j := ScanBucket(buckets[id], key);
      assert Lookup(buckets, hasher, key) == Search(buckets[id], key);
      assert j < |buckets[id]|;
      v := buckets[id][j].value;
    }

    /** `at`: the stored value, or `OutOfRange` for a missing key; never changes the map. */
    method At(key: K) returns (r: Result<V, LookupError>)
      requires Valid()
      ensures r == if key in contents then Success(contents[key]) else Failure(OutOfRange)
    {
      var id := GetHash(key);
      var j := ScanBucket(buckets[id], key);
      assert Lookup(buckets, hasher, key) == Search(buckets[id], key);
      if j < |buckets[id]| {
        return Success(buckets[id][j].value);
      }
      return Failure(OutOfRange);
    }

    /** Drops every entry and returns to one bucket; the hasher stays. */
    method Clear()
      modifies this
      ensures Valid() && contents == map[] && hasher == old(hasher)
      ensures buckets == [[]] && sz == 0
    {
      buckets := Resized([], DefaultBucketCount);
      sz := 0;
      contents := map[];
      EmptyStore(buckets, hasher);
    }

    /** A cursor on the first entry, which is the end cursor for an empty map. */
    method Begin() returns (c: Cursor<K, V>)
      requires Valid()
      ensures fresh(c) && c.Valid() && c.store == buckets && c.Index() == 0
      ensures c.AtEnd() <==> contents == map[]
    {
      c := new Cursor(buckets, 0);
    }

    /** The cursor past the last bucket. */
    method End() returns (c: Cursor<K, V>)
      requires Valid()
      ensures fresh(c) && c.Valid() && c.store == buckets && c.AtEnd()
      ensures c.Index() == sz
    {
      c := new Cursor(buckets, |buckets|);
    }

    /**
     * A full traversal (`for (auto &it : map)`): from `begin()`, `++` until equal
     * to `end()`. It takes `size()` steps, in bucket order, and meets every stored
     * mapping exactly once.
     */
    method Entries() returns (es: seq<Entry<K, V>>)
      requires Valid()
      ensures es == Flatten(buckets)
      ensures |es| == sz
      ensures MapOf(es) == contents && KeysDistinct(es)
    {
      var c := Begin();
      var e := End();
      es := Collect(c, e);
      assert Flatten(buckets)[0..|Flatten(buckets)|] == Flatten(buckets);
      TraversalIsExact(buckets, hasher, contents);
    }

    /** `copy_range`: insert each element in order. */
    method CopyRange(items: seq<Entry<K, V>>)
      requires Valid()
      modifies this
      ensures Valid() && hasher == old(hasher)
      ensures contents == MapOf(items) + old(contents)
    {
      ghost var c0 := contents;
      var i := 0;
      while i < |items|
        invariant i <= |items|
        invariant Valid() && hasher == old(hasher)
        invariant contents == MapOf(items[..i]) + c0
      {
        InsertNext(items, i, c0);
        Insert(items[i]);
        i := i + 1;
      }
      assert items[..i] == items;
    }

    /**
     * `operator=`: unless assigning to itself, clear, take the other map's hasher
     * and insert the other map's entries as its traversal yields them.
     */
    method Assign(from: HashMap<K, V>)
      requires Valid() && from.Valid()
      modifies this
      ensures Valid()
      ensures contents == old(from.contents) && hasher == old(from.hasher)
      ensures from == this ==> buckets == old(buckets) && sz == old(sz)
    {
      if from == this {
        return;
      }
      Clear();
      hasher := from.hasher;
      EmptyStore(buckets, hasher);
      var es := from.Entries();
      CopyRange(es);
    }

    /**
     * `resize_table`: when the bucket count left [2*sz, 4*sz], double or halve it
     * and rehash every entry, bucket by bucket, into a fresh store.
     */
    method ResizeTable()
      requires Consistent() && AfterStep(sz, |buckets|)
      modifies this
      ensures Valid()
      ensures contents == old(contents) && hasher == old(hasher) && sz == old(sz)
      ensures |buckets| == NewBucketCount(old(|buckets|), old(sz))
      ensures 2 * old(sz) <= old(|buckets|) <= 4 * old(sz) ==> buckets == old(buckets)
    {
      ResizeRestoresLoad(sz, |buckets|);
      if |buckets| >= sz * 2 && |buckets| <= sz * 4 {
        return;
      }
      var newSz := 0;
      if |buckets| < sz * 2 {
        newSz := |buckets| * 2;
      }
      if |buckets| > sz * 4 {
        newSz := |buckets| / 2;
      }
      Rehash(newSz);
    }

    /**
     * The second half of `resize_table`: move the buckets aside, clear the map,
     * give it `newSz` empty buckets and push every old entry, bucket by bucket,
     * on the front of its new bucket.
     */
    method Rehash(newSz: nat)
      requires Consistent() && newSz > 0
      modifies this
      ensures Consistent() && |buckets| == newSz
      ensures contents == old(contents) && hasher == old(hasher) && sz == old(sz)
    {
      var tmp := buckets;
      ghost var flat := Flatten(tmp);
      TraversalIsExact(tmp, hasher, contents);
      ghost var c0, h0 := contents, hasher;

      Clear();
      buckets := Resized(buckets, newSz);
      RehashStart(buckets, hasher, flat);

      var i := 0;
      while i < |tmp|
        invariant i <= |tmp|
        invariant hasher == h0 && |buckets| == newSz
        invariant sz == |Flatten(tmp[..i])|
        invariant Rehashing(buckets, hasher, contents, flat, sz)
      {
        FlattenSnoc(tmp, i);
        BucketStretch(tmp, i);
        RehashBucket(tmp[i], flat);
        i := i + 1;
      }
      assert tmp[..i] == tmp;
      RehashDone(buckets, hasher, contents, flat);
    }

    /**
     * The inner loop of `resize_table`: push each entry of the old bucket `b` on
     * the front of its new bucket and count it. `b` is the next stretch of the
     * enumeration `flat` of the old buckets.
     */
    method RehashBucket(b: Bucket<K, V>, ghost flat: seq<Entry<K, V>>)
      requires Rehashing(buckets, hasher, contents, flat, sz) && KeysDistinct(flat)
      requires sz + |b| <= |flat| && flat[sz..sz + |b|] == b
      modifies this
      ensures sz == old(sz) + |b| && Rehashing(buckets, hasher, contents, flat, sz)
      ensures hasher == old(hasher) && |buckets| == old(|buckets|)
    {
      ghost var base := sz;
      var j := 0;
      while j < |b|
        invariant j <= |b| && sz == base + j
        invariant hasher == old(hasher) && |buckets| == old(|buckets|)
        invariant Rehashing(buckets, hasher, contents, flat, sz)
      {
        var e := b[j];
        assert e == flat[sz];
        var id := GetHash(e.key);
        RehashStep(buckets, hasher, contents, flat, sz, e, id);
        buckets := buckets[id := [e] + buckets[id]];
        sz := sz + 1;
        contents := contents[e.key := e.value];
        j := j + 1;
      }
    }
  }
}
