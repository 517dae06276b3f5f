/**
 * The bucket store of the hash map: a sequence of buckets, each bucket a
 * sequence of (key, value) entries, a key living in bucket `hash(key) % count`.
 * Everything here is a value; the class in hashmap.dfy updates a store of this
 * shape in place and keeps `Represents` as its invariant.
 */
module BucketStore {
  import opened Wrappers

  /** One stored pair; `key` is never changed once stored. */
  datatype Entry<K, V> = Entry(key: K, value: V)

  /** A bucket is the std::list of one slot, front first. */
  type Bucket<K, V> = seq<Entry<K, V>>

  // ---------------------------------------------------------------------------
  // Searching a sequence of entries
  // ---------------------------------------------------------------------------

  /** The value of the first entry of `s` whose key is `k`: what a front-to-back scan finds. */
  function Search<K(==, !new), V>(s: seq<Entry<K, V>>, k: K): Option<V>
  {
    if s == [] then None
    else if s[0].key == k then Some(s[0].value)
    else Search(s[1..], k)
  }

  /** No two entries of `s` share a key. */
  ghost predicate KeysDistinct<K, V>(s: seq<Entry<K, V>>)
  {
    forall a, b :: 0 <= a < b < |s| ==> s[a].key != s[b].key
  }

  /** A scan that stops at `j` (the first match, or the end) agrees with `Search`. */
  lemma {:induction false} SearchStopsAt<K(!new), V>(s: seq<Entry<K, V>>, k: K, j: nat)
    requires j <= |s|
    requires forall t :: 0 <= t < j ==> s[t].key != k
    requires j < |s| ==> s[j].key == k
    ensures Search(s, k) == if j < |s| then Some(s[j].value) else None
  {
    if j > 0 {
      assert s[0].key != k;
      SearchStopsAt(s[1..], k, j - 1);
    }
  }

  /** `Search` misses exactly when no entry carries the key. */
  lemma {:induction false} SearchNoneIff<K(!new), V>(s: seq<Entry<K, V>>, k: K)
    ensures Search(s, k).None? <==> forall t :: 0 <= t < |s| ==> s[t].key != k
  {
    if s != [] && s[0].key != k {
      SearchNoneIff(s[1..], k);
      assert forall t :: 1 <= t < |s| ==> s[t] == s[1..][t - 1];
    }
  }

  /** In a sequence with distinct keys, every entry is what `Search` returns for its key. */
  lemma SearchDistinct<K(!new), V>(s: seq<Entry<K, V>>, j: nat)
    requires KeysDistinct(s) && j < |s|
    ensures Search(s, s[j].key) == Some(s[j].value)
  {
    SearchStopsAt(s, s[j].key, j);
  }

  /** Scanning a concatenation scans the left part first. */
  lemma {:induction false} SearchAppend<K(!new), V>(a: seq<Entry<K, V>>, b: seq<Entry<K, V>>, k: K)
    ensures Search(a + b, k) == if Search(a, k).Some? then Search(a, k) else Search(b, k)
  {
    if a == [] {
      assert a + b == b;
    } else {
      assert (a + b)[1..] == a[1..] + b;
      SearchAppend(a[1..], b, k);
    }
  }

  /** Removing an entry whose key is not `k` does not change what a scan for `k` finds. */
  lemma {:induction false} SearchRemoveOther<K(!new), V>(s: seq<Entry<K, V>>, j: nat, k: K)
    requires j < |s| && s[j].key != k
    ensures Search(s[..j] + s[j + 1..], k) == Search(s, k)
  {
    if j == 0 {
      assert s[..0] + s[1..] == s[1..];
    } else {
      var r := s[..j] + s[j + 1..];
      assert r[0] == s[0];
      assert r[1..] == s[1..][..j - 1] + s[1..][j..];
      SearchRemoveOther(s[1..], j - 1, k);
    }
  }

  // ---------------------------------------------------------------------------
  // The map a sequence of entries stands for
  // ---------------------------------------------------------------------------

  /**
   * The key-to-value map of a sequence of entries in which the first entry of a
   * key wins, the rule `insert` follows: it never overwrites.
   */
  function MapOf<K(==, !new), V>(s: seq<Entry<K, V>>): (m: map<K, V>)
    ensures forall k {:trigger Search(s, k)} :: Search(s, k) == if k in m then Some(m[k]) else None
  {
    if s == [] then map[]
    else MapOf(s[1..])[s[0].key := s[0].value]
  }

  /** Adding an entry at the back changes the map only if its key is new. */
  lemma MapOfSnoc<K(!new), V>(s: seq<Entry<K, V>>, e: Entry<K, V>)
    ensures MapOf(s + [e]) == if e.key in MapOf(s) then MapOf(s) else MapOf(s)[e.key := e.value]
  {
    var l, r := MapOf(s + [e]), if e.key in MapOf(s) then MapOf(s) else MapOf(s)[e.key := e.value];
    forall k ensures k in l <==> k in r
      ensures k in l ==> l[k] == r[k]
    {
      SearchAppend(s, [e], k);
    }
    assert l == r;
  }

  /**
   * A first-wins insert into the left operand of a union (whose right operand
   * wins) is a first-wins insert into the union.
   */
  lemma InsertUnderUnion<K(!new), V>(a: map<K, V>, c: map<K, V>, e: Entry<K, V>)
    ensures (if e.key in a then a else a[e.key := e.value]) + c ==
            if e.key in a + c then a + c else (a + c)[e.key := e.value]
  {
  }

  /**
   * One step of inserting `items` in order into a map `c`: the map built from the
   * first i+1 items over `c` is the map built from the first i items, with item i
   * added only if its key is new.
   */
  lemma InsertNext<K(!new), V>(items: seq<Entry<K, V>>, i: nat, c: map<K, V>)
    requires i < |items|
    ensures var m, e := MapOf(items[..i]) + c, items[i];
            MapOf(items[..i + 1]) + c == if e.key in m then m else m[e.key := e.value]
  {
    MapOfSnoc(items[..i], items[i]);
    InsertUnderUnion(MapOf(items[..i]), c, items[i]);
    assert items[..i + 1] == items[..i] + [items[i]];
  }

  /** In a sequence with distinct keys, the key of entry `n` is not among those before it. */
  lemma FreshKey<K(!new), V>(s: seq<Entry<K, V>>, n: nat)
    requires KeysDistinct(s) && n < |s|
    ensures s[n].key !in MapOf(s[..n])
  {
    SearchNoneIff(s[..n], s[n].key);
  }

  // ---------------------------------------------------------------------------
  // Flattening the store: the order a traversal walks it
  // ---------------------------------------------------------------------------

  /** All entries of the buckets, bucket by bucket and front to back within a bucket. */
  function Flatten<K, V>(bs: seq<Bucket<K, V>>): seq<Entry<K, V>>
  {
    if bs == [] then [] else Flatten(bs[..|bs| - 1]) + bs[|bs| - 1]
  }

  lemma FlattenSnoc<K, V>(bs: seq<Bucket<K, V>>, i: nat)
    requires i < |bs|
    ensures Flatten(bs[..i + 1]) == Flatten(bs[..i]) + bs[i]
  {
    assert bs[..i + 1][..i] == bs[..i];
  }

  /** The entries of the first `i` buckets come first in the flattened store. */
  lemma {:induction false} FlattenPrefix<K, V>(bs: seq<Bucket<K, V>>, i: nat)
    requires i <= |bs|
    ensures |Flatten(bs[..i])| <= |Flatten(bs)|
    ensures Flatten(bs)[..|Flatten(bs[..i])|] == Flatten(bs[..i])
  {
    assert bs[..|bs|] == bs;
    if i < |bs| {
      var n := |bs| - 1;
      FlattenPrefix(bs[..n], i);
      assert bs[..n][..i] == bs[..i];
    }
  }

  /** Entry `j` of bucket `i` sits at flat position |Flatten(bs[..i])| + j. */
  lemma FlatPosition<K, V>(bs: seq<Bucket<K, V>>, i: nat, j: nat)
    requires i < |bs| && j < |bs[i]|
    ensures |Flatten(bs[..i])| + j < |Flatten(bs)|
    ensures Flatten(bs)[|Flatten(bs[..i])| + j] == bs[i][j]
  {
    FlattenSnoc(bs, i);
    FlattenPrefix(bs, i + 1);
    var p := Flatten(bs[..i + 1]);
    assert p[|Flatten(bs[..i])| + j] == bs[i][j];
    assert Flatten(bs)[..|p|][|Flatten(bs[..i])| + j] == p[|Flatten(bs[..i])| + j];
  }

  /** Bucket `i` is the stretch of the flattened store that starts at |Flatten(bs[..i])|. */
  lemma BucketStretch<K, V>(bs: seq<Bucket<K, V>>, i: nat)
    requires i < |bs|
    ensures |Flatten(bs[..i])| + |bs[i]| <= |Flatten(bs)|
    ensures Flatten(bs)[|Flatten(bs[..i])|..|Flatten(bs[..i])| + |bs[i]|] == bs[i]
  {
    FlattenSnoc(bs, i);
    FlattenPrefix(bs, i + 1);
    var a, n := Flatten(bs[..i]), |Flatten(bs[..i])| + |bs[i]|;
    assert Flatten(bs)[..n] == a + bs[i];
    assert Flatten(bs)[|a|..n] == (a + bs[i])[|a|..];
  }

  /** The entries of bucket `i` all come before those of any later bucket. */
  lemma OffsetGap<K, V>(bs: seq<Bucket<K, V>>, i: nat, i2: nat)
    requires i < i2 <= |bs|
    ensures |Flatten(bs[..i])| + |bs[i]| <= |Flatten(bs[..i2])|
  {
    FlattenSnoc(bs, i);
    FlattenPrefix(bs[..i2], i + 1);
    assert bs[..i2][..i + 1] == bs[..i + 1];
  }

  /** Replacing one bucket changes the entry count by the difference of the two lengths. */
  lemma {:induction false} FlattenUpdateLen<K, V>(bs: seq<Bucket<K, V>>, i: nat, b: Bucket<K, V>)
    requires i < |bs|
    ensures |Flatten(bs[i := b])| == |Flatten(bs)| - |bs[i]| + |b|
  {
    var n := |bs| - 1;
    var nb := bs[i := b];
    assert nb[..n] == if i < n then bs[..n][i := b] else bs[..n];
    if i < n {
      FlattenUpdateLen(bs[..n], i, b);
    }
  }

  // ---------------------------------------------------------------------------
  // The store invariant
  // ---------------------------------------------------------------------------

  /**
   * The remainder of `a` divided by `n`, by repeated subtraction. Stated
   * recursively so that the solver unfolds it only on demand; `RemainderIsMod`
   * shows it is the `%` of the source.
   */
  function Remainder(a: nat, n: nat): (r: nat)
    requires n > 0
    ensures r < n
    decreases a
  {
    if a < n then a else Remainder(a - n, n)
  }

  lemma MulAtLeast(n: int, d: int)
    requires n > 0 && d >= 1
    ensures n * d >= n
  {
  }

  /** A remainder is determined by any quotient-remainder split of `a`. */
  lemma ModUnique(a: int, n: int, q: int, r: int)
    requires n > 0 && 0 <= r < n && a == n * q + r
    ensures a % n == r
  {
    var q2, r2 := a / n, a % n;
    var d := q2 - q;
    assert n * q2 - n * q == n * d;
    assert n * d == r - r2;
    if d >= 1 {
      MulAtLeast(n, d);
    } else if d <= -1 {
      assert n * (-d) == -(n * d);
      MulAtLeast(n, -d);
    }
  }

  lemma {:induction false} RemainderIsMod(a: nat, n: nat)
    requires n > 0
    ensures Remainder(a, n) == a % n
  {
    if a >= n {
      RemainderIsMod(a - n, n);
      var q := (a - n) / n;
      assert a - n == n * q + (a - n) % n;
      assert a == n * (q + 1) + (a - n) % n;
      ModUnique(a, n, q + 1, (a - n) % n);
    }
  }

  /** The bucket `get_hash` picks for `k` in a store of `n` buckets: `h(k) % n`. */
  function Slot<K>(h: K -> nat, k: K, n: nat): (r: nat)
    requires n > 0
    ensures r < n
  {
    Remainder(h(k), n)
  }

  /** What a keyed operation finds for `k`: a scan of the key's own bucket. */
  function Lookup<K(==, !new), V>(bs: seq<Bucket<K, V>>, h: K -> nat, k: K): Option<V>
    requires |bs| > 0
  {
    Search(bs[Slot(h, k, |bs|)], k)
  }

  /** Every entry sits in the bucket its key hashes to. */
  ghost predicate Placed<K(!new), V>(bs: seq<Bucket<K, V>>, h: K -> nat)
    requires |bs| > 0
  {
    forall i, j :: 0 <= i < |bs| && 0 <= j < |bs[i]| ==> Slot(h, bs[i][j].key, |bs|) == i
  }

  /** No bucket holds a key twice. */
  ghost predicate BucketsDistinct<K(!new), V>(bs: seq<Bucket<K, V>>)
  {
    forall i :: 0 <= i < |bs| ==> KeysDistinct(bs[i])
  }

  /** The keyed lookup answers as `m` does, for every key. */
  ghost predicate Answers<K(!new), V>(bs: seq<Bucket<K, V>>, h: K -> nat, m: map<K, V>)
    requires |bs| > 0
  {
    forall k {:trigger Lookup(bs, h, k)} :: Lookup(bs, h, k) == if k in m then Some(m[k]) else None
  }

  /**
   * `bs` is a well-formed store for hasher `h` holding exactly the mappings of `m`:
   * at least one bucket, every entry in the bucket of its key, no key twice in a
   * bucket, and the keyed lookup answering as `m` does.
   */
  ghost predicate Represents<K(!new), V>(bs: seq<Bucket<K, V>>, h: K -> nat, m: map<K, V>)
  {
    |bs| > 0 && Placed(bs, h) && BucketsDistinct(bs) && Answers(bs, h, m)
  }

  /** A store of empty buckets stands for the empty map, whatever the hasher. */
  lemma EmptyStore<K(!new), V>(bs: seq<Bucket<K, V>>, h: K -> nat)
    requires |bs| > 0 && forall i :: 0 <= i < |bs| ==> bs[i] == []
    ensures Represents(bs, h, map[]) && |Flatten(bs)| == 0
  {
  }

  /** Pushing an entry on the front of its own bucket keeps every entry in place. */
  lemma PushFrontPlaced<K(!new), V>(bs: seq<Bucket<K, V>>, h: K -> nat, e: Entry<K, V>)
    requires |bs| > 0 && Placed(bs, h)
    ensures var id := Slot(h, e.key, |bs|);
            Placed(bs[id := [e] + bs[id]], h)
  {
  }

  /** Pushing an entry whose key is absent from bucket `id` keeps the keys of every bucket distinct. */
  lemma PushFrontDistinct<K(!new), V>(bs: seq<Bucket<K, V>>, id: nat, e: Entry<K, V>)
    requires BucketsDistinct(bs) && id < |bs|
    requires forall t :: 0 <= t < |bs[id]| ==> bs[id][t].key != e.key
    ensures BucketsDistinct(bs[id := [e] + bs[id]])
  {
  }

  /** After pushing `e` on the front of its bucket, the lookup answers as `m` updated by `e`. */
  lemma PushFrontAnswers<K(!new), V>(bs: seq<Bucket<K, V>>, h: K -> nat, m: map<K, V>, e: Entry<K, V>)
    requires |bs| > 0 && Answers(bs, h, m)
    ensures var id := Slot(h, e.key, |bs|);
            Answers(bs[id := [e] + bs[id]], h, m[e.key := e.value])
  {
    var id := Slot(h, e.key, |bs|);
    var nb: seq<Bucket<K, V>> := bs[id := [e] + bs[id]];
    var m' := m[e.key := e.value];
    forall k
      ensures Lookup(nb, h, k) == if k in m' then Some(m'[k]) else None
    {
      if Slot(h, k, |nb|) == id {
        assert ([e] + bs[id])[1..] == bs[id];
        assert Lookup(bs, h, k) == Search(bs[id], k);
      } else {
        assert Lookup(nb, h, k) == Lookup(bs, h, k);
      }
    }
  }

  /**
   * `insert` of an absent key: pushing the entry on the front of its bucket gives
   * a store of the map extended by exactly that mapping, one entry larger.
   */
  lemma InsertPreserves<K(!new), V>(bs: seq<Bucket<K, V>>, h: K -> nat, m: map<K, V>, e: Entry<K, V>)
    requires Represents(bs, h, m) && e.key !in m
    ensures var id := Slot(h, e.key, |bs|);
            var nb := bs[id := [e] + bs[id]];
            && Represents(nb, h, m[e.key := e.value])
            && |Flatten(nb)| == |Flatten(bs)| + 1
            && |m[e.key := e.value]| == |m| + 1
  {
    var id := Slot(h, e.key, |bs|);
    assert Lookup(bs, h, e.key) == None;
    SearchNoneIff(bs[id], e.key);
    PushFrontPlaced(bs, h, e);
    PushFrontDistinct(bs, id, e);
    PushFrontAnswers(bs, h, m, e);
    FlattenUpdateLen(bs, id, [e] + bs[id]);
    assert m[e.key := e.value].Keys == m.Keys + {e.key};
  }

  /** Removing one entry of a bucket keeps every entry in place. */
  lemma RemovePlaced<K(!new), V>(bs: seq<Bucket<K, V>>, h: K -> nat, id: nat, j: nat)
    requires |bs| > 0 && Placed(bs, h) && id < |bs| && j < |bs[id]|
    ensures Placed(bs[id := bs[id][..j] + bs[id][j + 1..]], h)
  {
  }

  /** Removing one entry of a bucket keeps the keys of every bucket distinct. */
  lemma RemoveDistinct<K(!new), V>(bs: seq<Bucket<K, V>>, id: nat, j: nat)
    requires BucketsDistinct(bs) && id < |bs| && j < |bs[id]|
    ensures BucketsDistinct(bs[id := bs[id][..j] + bs[id][j + 1..]])
  {
  }

  /**
   * Removing the entry of `k` (the only one, as keys in a bucket are distinct)
   * leaves a lookup that answers as `m` without `k`.
   */
  lemma RemoveAnswers<K(!new), V>(bs: seq<Bucket<K, V>>, h: K -> nat, m: map<K, V>, k: K, j: nat)
    requires |bs| > 0 && Answers(bs, h, m)
    requires KeysDistinct(bs[Slot(h, k, |bs|)])
    requires j < |bs[Slot(h, k, |bs|)]| && bs[Slot(h, k, |bs|)][j].key == k
    ensures var id := Slot(h, k, |bs|);
            Answers(bs[id := bs[id][..j] + bs[id][j + 1..]], h, m - {k})
  {
    var id := Slot(h, k, |bs|);
    var b := bs[id];
    var b' := b[..j] + b[j + 1..];
    var nb: seq<Bucket<K, V>> := bs[id := b'];
    var m' := m - {k};
    SearchDistinct(b, j);
    assert Lookup(bs, h, k) == Some(b[j].value);
    forall k2
      ensures Lookup(nb, h, k2) == if k2 in m' then Some(m'[k2]) else None
    {
      if Slot(h, k2, |nb|) == id {
        assert Lookup(bs, h, k2) == Search(b, k2);
        if k2 == k {
          assert forall t :: 0 <= t < |b'| ==> b'[t] == if t < j then b[t] else b[t + 1];
          SearchNoneIff(b', k);
        } else {
          SearchRemoveOther(b, j, k2);
        }
      } else {
        assert Lookup(nb, h, k2) == Lookup(bs, h, k2);
      }
    }
  }

  /**
   * `erase` of a present key: removing its entry (at position `j` of its bucket)
   * gives a store of the map without exactly that key, one entry smaller.
   */
  lemma ErasePreserves<K(!new), V>(bs: seq<Bucket<K, V>>, h: K -> nat, m: map<K, V>, k: K, j: nat)
    requires Represents(bs, h, m)
    requires j < |bs[Slot(h, k, |bs|)]| && bs[Slot(h, k, |bs|)][j].key == k
    ensures var id := Slot(h, k, |bs|);
            var nb := bs[id := bs[id][..j] + bs[id][j + 1..]];
            && k in m
            && Represents(nb, h, m - {k})
            && |Flatten(nb)| + 1 == |Flatten(bs)|
            && |m - {k}| + 1 == |m|
  {
    var id := Slot(h, k, |bs|);
    var b := bs[id];
    SearchDistinct(b, j);
    assert Lookup(bs, h, k) == Some(b[j].value);
    RemovePlaced(bs, h, id, j);
    RemoveDistinct(bs, id, j);
    RemoveAnswers(bs, h, m, k, j);
    FlattenUpdateLen(bs, id, b[..j] + b[j + 1..]);
    assert (m - {k}).Keys == m.Keys - {k};
  }

  /**
   * Midway through a rehash: `bs` is a well-formed store of the first `n`
   * entries of the enumeration `flat`, and nothing else.
   */
  ghost predicate Rehashing<K(!new), V>(bs: seq<Bucket<K, V>>, h: K -> nat, m: map<K, V>, flat: seq<Entry<K, V>>, n: nat)
  {
    && Represents(bs, h, m)
    && |Flatten(bs)| == n <= |flat|
    && m == MapOf(flat[..n])
  }

  /** A rehash starts from empty buckets, which hold none of the entries of `flat`. */
  lemma RehashStart<K(!new), V>(bs: seq<Bucket<K, V>>, h: K -> nat, flat: seq<Entry<K, V>>)
    requires |bs| > 0 && forall i :: 0 <= i < |bs| ==> bs[i] == []
    ensures Rehashing(bs, h, map[], flat, 0)
  {
    EmptyStore(bs, h);
    assert flat[..0] == [];
  }

  /** A rehash that has placed every entry of `flat` holds exactly the map of `flat`. */
  lemma RehashDone<K(!new), V>(bs: seq<Bucket<K, V>>, h: K -> nat, m: map<K, V>, flat: seq<Entry<K, V>>)
    requires Rehashing(bs, h, m, flat, |flat|)
    ensures Represents(bs, h, m) && |Flatten(bs)| == |flat| && m == MapOf(flat)
  {
    assert flat[..|flat|] == flat;
  }

  /**
   * One step of the rehash loop: pushing the next entry of a duplicate-free
   * enumeration on the front of its bucket extends the store by that entry.
   */
  lemma RehashStep<K(!new), V>(bs: seq<Bucket<K, V>>, h: K -> nat, m: map<K, V>, flat: seq<Entry<K, V>>, n: nat,
                                e: Entry<K, V>, id: nat)
    requires Rehashing(bs, h, m, flat, n) && KeysDistinct(flat) && n < |flat|
    requires e == flat[n] && id == Slot(h, e.key, |bs|)
    ensures Rehashing(bs[id := [e] + bs[id]], h, m[e.key := e.value], flat, n + 1)
  {
    FreshKey(flat, n);
    MapOfSnoc(flat[..n], e);
    assert flat[..n + 1] == flat[..n] + [e];
    InsertPreserves(bs, h, m, e);
  }

  /**
   * The first `p` buckets, flattened, hold exactly the mappings of `m` whose keys
   * belong to those buckets, each key once.
   */
  lemma {:induction false} PrefixView<K(!new), V>(bs: seq<Bucket<K, V>>, h: K -> nat, m: map<K, V>, p: nat)
    requires Represents(bs, h, m) && p <= |bs|
    ensures forall k :: Search(Flatten(bs[..p]), k) ==
                        if k in m && Slot(h, k, |bs|) < p then Some(m[k]) else None
    ensures KeysDistinct(Flatten(bs[..p]))
  {
    if p == 0 {
      assert bs[..0] == [];
    } else {
      var q := p - 1;
      PrefixView(bs, h, m, q);
      FlattenSnoc(bs, q);
      var a, b := Flatten(bs[..q]), bs[q];
      forall k
        ensures Search(a + b, k) == if k in m && Slot(h, k, |bs|) < p then Some(m[k]) else None
      {
        SearchAppend(a, b, k);
        if Search(a, k).None? && Search(b, k).Some? {
          SearchNoneIff(b, k);
          var t :| 0 <= t < |b| && b[t].key == k;
          assert Slot(h, b[t].key, |bs|) == q;
        }
        if Slot(h, k, |bs|) == q {
          assert Lookup(bs, h, k) == Search(b, k);
        }
      }
      forall s, t | 0 <= s < t < |a + b|
        ensures (a + b)[s].key != (a + b)[t].key
      {
        if s < |a| && t >= |a| {
          SearchNoneIff(a, a[s].key);
          assert Slot(h, b[t - |a|].key, |bs|) == q;
        }
      }
    }
  }

  /**
   * A full walk of a well-formed store meets every mapping of `m` and no key
   * twice: the flattened store is an exact enumeration of the map.
   */
  lemma TraversalIsExact<K(!new), V>(bs: seq<Bucket<K, V>>, h: K -> nat, m: map<K, V>)
    requires Represents(bs, h, m)
    ensures MapOf(Flatten(bs)) == m
    ensures KeysDistinct(Flatten(bs))
  {
    PrefixView(bs, h, m, |bs|);
    assert bs[..|bs|] == bs;
    var f := Flatten(bs);
    forall k ensures k in MapOf(f) <==> k in m
      ensures k in m ==> MapOf(f)[k] == m[k]
    {
    }
    assert MapOf(f) == m;
  }
}
