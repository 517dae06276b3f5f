# Separate-chaining hash map

This project models `HashMap.h`, a generic key→value container in C++. The
container uses open hashing with separate chaining. The map holds:

- a vector of buckets, where each bucket is a list of `(key, value)` entries;
- an entry counter `sz`, kept by hand;
- a hasher.

A key's bucket is `hasher(key) % buckets.size()`. Behaviour of the operations:

- `insert` pushes a new entry on the front of its bucket and never overwrites a present key.
- `erase` removes the matching entry.
- `find` returns a traversal cursor. `operator[]` finds the key or inserts a default value. `at` fails with `out_of_range` on a missing key.
- After every successful `insert` or `erase`, and after `operator[]` inserts, `resize_table` doubles or halves the bucket count once if it left `[2*sz, 4*sz]`. It then rehashes every entry into a fresh store.
- The cursor (`Iterator` / `CIterator`) walks the two-level structure. It skips empty buckets, and any two cursors at the end compare equal.

The model is imperative, following the source:

- `HashMaps.HashMap` is a class with the fields `buckets` (a sequence of buckets), `sz` and `hasher`, and the methods update those fields in place.
- A ghost field `contents: map<K, V>` is the map the object stands for.
- `Valid()` ties the fields together. Every entry sits in the bucket `hasher(key) % |buckets|`, and no bucket holds a key twice. The bucket-by-bucket lookup answers as `contents` does. `sz` is both the total length of the buckets and `|contents|`.
- `Valid()` also holds the load condition of the resize policy. An empty map has one or two buckets; a non-empty map has between `2*sz` and `4*sz`. So the bucket count is never 0 and `%` stays defined.
- `Cursors.Cursor` is a class with the source's `vect_it`, `list_it` and `vect_end` fields, over the bucket vector it was built from.

Modules:

- `BucketStore`: entries, buckets, and the first-match scan `Search`.
- `BucketStore` also has the map built by inserting a sequence in order (`MapOf`, first occurrence wins) and the flattening of the buckets in traversal order (`Flatten`).
- `BucketStore` also has the store invariant `Represents` and the lemmas for how push-front and removal preserve it.
- `ResizePolicy`: the load condition and the new bucket count.
- `Cursors`: the traversal cursor.
- `HashMaps`: the map class.
- `Wrappers`: `Option`, `Result` and the `OutOfRange` error.

## Model

| member | source | states |
|---|---|---|
| `BucketStore.SearchStopsAt` | HashMap.h:206-212 | A bucket scan that passes only other keys and stops on the key yields that entry's value. A scan that runs off the end yields nothing. |
| `BucketStore.SearchNoneIff` | HashMap.h:301-309 | A bucket lookup finds nothing exactly when no entry of the bucket carries the key (both directions). |
| `BucketStore.SearchDistinct` | HashMap.h:240-245 | In a bucket without duplicate keys, looking up the key of entry `j` yields entry `j`'s value. |
| `BucketStore.MapOf` | HashMap.h:402-407 | The map reached by inserting a sequence of entries in order into an empty map. A lookup in it agrees with the first-match scan of the sequence, so the first occurrence of a key wins. |
| `BucketStore.MapOfSnoc` | HashMap.h:204-212 | Inserting one more entry at the back adds its mapping only when the key is new. A present key keeps its first value. |
| `BucketStore.InsertNext` | HashMap.h:402-407 | One step of `copy_range` into any map `c`: item `i` is added to the map so far only if its key is new. |
| `BucketStore.FreshKey` | HashMap.h:389-397 | In a sequence with distinct keys, entry `n`'s key is absent from the map of the entries before it, so each rehash insert adds a new key. |
| `BucketStore.RemainderIsMod` | HashMap.h:366-369 | The bucket-index computation `Remainder(a, n)` is exactly `a % n`. |
| `BucketStore.Slot` | HashMap.h:366-369 | The bucket index `hasher(key) % n` is below the bucket count `n`. |
| `BucketStore.EmptyStore` | HashMap.h:322-328 | Buckets that are all empty stand for the empty map and hold zero entries, whatever the hasher. |
| `BucketStore.PushFrontPlaced` | HashMap.h:213 | Pushing an entry on the front of its key's bucket keeps every entry in the bucket its key hashes to. |
| `BucketStore.PushFrontDistinct` | HashMap.h:213 | Pushing an entry whose key is absent from the bucket keeps the keys of every bucket distinct. |
| `BucketStore.PushFrontAnswers` | HashMap.h:213 | After the push, the lookup answers with the new value for the new key and as before for every other key. |
| `BucketStore.InsertPreserves` | HashMap.h:213-216 | Inserting an absent key gives a well-formed store of the old map plus exactly that mapping. The store gains one entry, and the map's size grows by one. |
| `BucketStore.RemovePlaced` | HashMap.h:225-227 | Removing an entry from a bucket keeps every other entry in its own bucket. |
| `BucketStore.RemoveDistinct` | HashMap.h:225-227 | Removing an entry keeps the keys of every bucket distinct. |
| `BucketStore.RemoveAnswers` | HashMap.h:221-229 | Removing the first entry carrying `k` leaves a lookup that answers as the map without `k`. `k` is found nowhere else in the bucket. |
| `BucketStore.ErasePreserves` | HashMap.h:219-234 | Erasing a present key gives a well-formed store of the map without exactly that key. The key was in the map, the store loses one entry, and the size drops by one. |
| `BucketStore.RehashStart` | HashMap.h:386-387 | After `clear()` and `resize(new_sz)`, the all-empty store has rehashed none of the old entries. |
| `BucketStore.RehashStep` | HashMap.h:393-397 | Pushing the next old entry on the front of its new bucket extends the rehashed store by exactly that entry. |
| `BucketStore.RehashDone` | HashMap.h:389-399 | Once every old entry is rehashed, the store holds exactly the map of the old traversal sequence, with as many entries as that sequence. |
| `BucketStore.PrefixView` | HashMap.h:15-44 | The entries of the first `p` buckets, in traversal order, are exactly the mappings whose key hashes below `p`. Each key appears once. |
| `BucketStore.TraversalIsExact` | HashMap.h:335-353 | For a well-formed store, the traversal sequence has no duplicate key. The map of that sequence is exactly the map the store represents. |
| `ResizePolicy.NewBucketCount` | HashMap.h:373-382 | The bucket count stays unchanged inside `[2*sz, 4*sz]`. Below that range it doubles, and above it it halves, rounding down. |
| `ResizePolicy.ResizeRestoresLoad` | HashMap.h:371-387 | After one insert or erase from a state in the load condition, one resize restores the load condition, and the new bucket count is at least 1. |
| `ResizePolicy.HalvingOneBucketGivesZero` | HashMap.h:381-387 | Without the load condition, an empty map with one bucket would be halved to zero buckets. |
| `Cursors.FirstNonEmpty` | HashMap.h:19-20 | The first bucket at or after `i` that holds an entry, or the end. Every bucket skipped on the way is empty. |
| `Cursors.PositionsDiffer` | HashMap.h:55-61 | Two different (bucket, position) places of entries lie at different places of the traversal. |
| `Cursors.Cursor.constructor` | HashMap.h:15-24 | A cursor built at bucket `start` stands on the first entry of the first non-empty bucket from there, or at the end. Its traversal index is the number of entries before `start`. |
| `Cursors.Cursor.SkipEmpty` | HashMap.h:19-23 | The empty-bucket skipping loop reaches the first non-empty bucket, standing on its first entry, and passes no entry. |
| `Cursors.Cursor.Deref` | HashMap.h:68-71 | `operator*` yields the entry at the cursor's place in the traversal sequence. |
| `Cursors.Cursor.Next` | HashMap.h:26-44 | `++` advances the traversal index by exactly one. It stays in the bucket if it can; otherwise it moves to the first entry of the next non-empty bucket or to the end. |
| `Cursors.Cursor.Equals` | HashMap.h:55-61 | Two cursors over one store compare equal exactly when they stand at the same place of the traversal, so all end cursors are equal. |
| `Cursors.Collect` | HashMap.h:402-407 | The loop from `start` until `finish` passes exactly the traversal entries between the two cursors, in order. It leaves `start` equal to `finish`. |
| `HashMaps.ScanBucket` | HashMap.h:206-210 | The bucket scan returns the index of the first entry with the key, or the bucket length when the key is absent. |
| `HashMaps.Resized` | HashMap.h:325-327 | `vector::resize(n)` keeps the first `n` buckets and pads with empty ones. |
| `HashMaps.HashMap.constructor` | HashMap.h:172-175 | A new map is empty, has one bucket and keeps the given hasher. |
| `HashMaps.HashMap.FromEntries` | HashMap.h:177-188 | The range and initializer-list constructors give a valid map of the items, first occurrence winning. |
| `HashMaps.HashMap.GetHash` | HashMap.h:366-369 | `get_hash` is the key's bucket `hasher(key) % buckets.size()`. |
| `HashMaps.HashMap.Size` | HashMap.h:312-315 | `size()` is the number of mappings held. |
| `HashMaps.HashMap.Empty` | HashMap.h:317-320 | `empty()` holds exactly when the map holds no mapping. |
| `HashMaps.HashMap.Insert` | HashMap.h:204-217 | A present key leaves buckets, `sz` and contents unchanged. An absent key adds exactly its mapping and `sz` grows by one. The map stays valid, including placement, distinctness, the counter and the load condition. |
| `HashMaps.HashMap.Erase` | HashMap.h:219-234 | Erasing removes exactly the key. A present key lowers `sz` by one. An absent key leaves buckets and `sz` unchanged. The map stays valid. |
| `HashMaps.HashMap.Find` | HashMap.h:236-254 | For a present key, the cursor stands on the entry of that key with its value. For an absent key, it is the end cursor. |
| `HashMaps.HashMap.Subscript` | HashMap.h:276-297 | A present key yields its value and changes nothing. An absent key inserts `(key, default)` and `sz` grows by one. The second scan after the resize always finds the key, and the default value is returned. |
| `HashMaps.HashMap.At` | HashMap.h:299-310 | `at` yields the stored value, or the `OutOfRange` failure for a missing key, and changes nothing. |
| `HashMaps.HashMap.Clear` | HashMap.h:322-328 | `clear()` leaves one empty bucket, `sz == 0`, no mappings, and the hasher unchanged. |
| `HashMaps.HashMap.Begin` | HashMap.h:335-338 | `begin()` is at traversal index 0. It is an end cursor exactly when the map is empty, so `begin() == end()` on an empty map. |
| `HashMaps.HashMap.End` | HashMap.h:345-348 | `end()` is the end cursor, whose traversal index is `size()`. |
| `HashMaps.HashMap.Entries` | HashMap.h:198-199 | A full traversal from `begin()` to `end()` yields the buckets in bucket order and has `size()` entries. It meets every mapping of the map exactly once. |
| `HashMaps.HashMap.CopyRange` | HashMap.h:402-407 | Inserting the items in order adds the map of the items under the present contents, so present keys keep their values. |
| `HashMaps.HashMap.Assign` | HashMap.h:190-202 | `operator=` gives a valid map with the other map's contents and hasher, and self-assignment leaves buckets, `sz`, contents and hasher unchanged. |
| `HashMaps.HashMap.ResizeTable` | HashMap.h:371-400 | The resize keeps contents, hasher and `sz`. It sets the bucket count to the policy's new count, leaves the buckets untouched inside the range, and restores the load condition. |
| `HashMaps.HashMap.Rehash` | HashMap.h:384-399 | Clearing, resizing to `new_sz` and reinserting every old entry gives a consistent store of the same contents and size over `new_sz` buckets. |
| `HashMaps.HashMap.RehashBucket` | HashMap.h:391-398 | The inner rehash loop pushes each entry of one old bucket on the front of its new bucket and counts it. |

## Left out

- `hash_function()` (HashMap.h:330-333) only returns the stored hasher; it is not modelled.
- `std::hash` and any concrete hasher: the hasher is an arbitrary function `K -> nat`, passed to the constructors.
- The post-increment operators (HashMap.h:46-53, 126-133) are a copy plus `Next`, and `operator!=` (HashMap.h:63-66) is the negation of `Equals`. Neither is modelled separately.
- `operator->` (HashMap.h:73-76) and pointer identity of entries are not modelled.
- `CIterator`, the const `find` and the const `begin`/`end` (HashMap.h:85-163, 256-274, 340-343, 350-353) repeat the non-const code up to constness. They are modelled once, as `Cursors.Cursor`, `Find`, `Begin` and `End`.
- The default-constructed iterator (HashMap.h:13) is not modelled.
- Iterator invalidation and list-node identity across mutation: a cursor keeps the bucket vector it was built from. It is valid only while the map is unchanged.
- `HashMaps.HashMap.Subscript`: does not model the returned `ValueT&` or writes through it. The value is returned instead. `ValueT()` is the parameter `zero`.
- `HashMaps.HashMap.Find`: the returned cursor is only stated to stand on the key's entry, not at which bucket position. That position is unique because no key occurs twice.
- `at`'s exception is the `Failure(OutOfRange)` result, and the message text is not modelled.
- Integer widths: `sz`, bucket counts and hash values are unbounded. The `size_t` overflow of `sz * 2`, `sz * 4` and `buckets.size() * 2` is not modelled.
- Allocation, `std::move` of the bucket vector (HashMap.h:384) and exception machinery are not modelled. The move is the local copy `tmp` followed by `Clear`.
- The template forms of the range and initializer-list constructors are modelled as `FromEntries` over a sequence of entries.
- `operator=` iterates `from` with its cursor and inserts each entry. The model collects that traversal with `Entries` and inserts the entries in the same order with `CopyRange`.
- `HashMaps.HashMap.ResizeTable` requires the state one insert or erase away from the load condition. That is the only state in which the source calls it.
- `resize_table`'s `new_sz` of 0 is unreachable under the load condition, so the model's `Rehash` requires a positive count. `ResizePolicy.HalvingOneBucketGivesZero` shows the condition is needed.
- `insert` and `operator[]` add a new entry at the front of the bucket, as the code does with `push_front`.
