/**
 * The load-factor policy of `resize_table`: keep the bucket count between two
 * and four times the number of entries, doubling or halving it once when a
 * single insert or erase pushes it out of that range.
 */
module ResizePolicy {

  /** The bucket count a map starts with and returns to on `clear` (`default_sz`). */
  const DefaultBucketCount: nat := 1

  /**
   * The load condition every reachable map satisfies between operations: an empty
   * map has one or two buckets, a non-empty one between 2*size and 4*size.
   */
  ghost predicate LoadOk(size: nat, count: nat)
  {
    if size == 0 then count == 1 || count == 2
    else 2 * size <= count <= 4 * size
  }

  /** The state right after one insert or erase: one entry away from a `LoadOk` state. */
  ghost predicate AfterStep(size: nat, count: nat)
  {
    (size > 0 && LoadOk(size - 1, count)) || LoadOk(size + 1, count)
  }

  /**
   * The bucket count `resize_table` leaves: unchanged inside [2*size, 4*size],
   * otherwise doubled when too small or halved (rounding down) when too large.
   */
  function NewBucketCount(count: nat, size: nat): (r: nat)
    ensures count < 2 * size ==> r == 2 * count
    ensures count > 4 * size ==> 2 * r <= count <= 2 * r + 1
    ensures 2 * size <= count <= 4 * size ==> r == count
  {
    if count >= size * 2 && count <= size * 4 then count
    else if count > size * 4 then count / 2
    else count * 2
  }

  /**
   * One resize after one insert or erase restores the load condition; in
   * particular the bucket count never drops to zero, so `hash % count` stays
   * defined, and a map emptied by an erase keeps one or two buckets.
   */
  lemma ResizeRestoresLoad(size: nat, count: nat)
    requires AfterStep(size, count)
    ensures NewBucketCount(count, size) >= 1
    ensures LoadOk(size, NewBucketCount(count, size))
  {
  }

  /**
   * Without the load condition the halving step is unsafe: an empty map with a
   * single bucket would be resized to zero buckets.
   */
  lemma HalvingOneBucketGivesZero()
    ensures NewBucketCount(DefaultBucketCount, 0) == 0
  {
  }
}
