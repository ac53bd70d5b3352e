/** init accepts any nonzero power of two, but the growth rule only keeps
    an empty bucket in tables of at least MinBuckets buckets.  In a table of
    one bucket the first insertion fills the only bucket without growing,
    and from then on a lookup of any other key probes that one bucket
    forever: it never meets the key it wants nor an empty bucket. */
module DenseMapFindings {
  import opened Wrappers
  import opened DenseMapProbe
  import opened DenseMap

  /** init as written: exactly n empty buckets, for any nonzero power of
      two n. */
  method InitAsWritten<K(==, !new), V>(info: KeyInfo<K>, n: nat) returns (t: Table<K, V>)
    requires info.empty != info.tombstone && IsPowerOfTwo(n)
    ensures |t.buckets| == n && t.entries == 0 && t.tombstones == 0
    ensures forall i :: 0 <= i < n ==> KindOf(info, t.buckets[i]) == EmptyBucket
  {
    t := Table(EmptyBuckets(info, n), 0, 0);
  }

  /** Without an empty bucket, a lookup of an absent key meets neither
      exit of its loop at any probe. */
  lemma NoExitWithoutEmpty<K(!new), V>(info: KeyInfo<K>, bs: seq<Bucket<K, V>>, k: K)
    requires |bs| > 0 && Ordinary(info, k)
    requires forall i :: 0 <= i < |bs| ==> KindOf(info, bs[i]) != EmptyBucket && !Holds(info, bs, i, k)
    ensures forall s: nat :: bs[Probe(info.hash(k), s, |bs|)].key != k
    ensures forall s: nat :: bs[Probe(info.hash(k), s, |bs|)].key != info.empty
  {
  }

  /** Integer keys with -1 and -2 reserved, hashed to themselves. */
  function IntKeys(): KeyInfo<int> {
    KeyInfo(-1, -2, (k: int) => if k < 0 then 0 else k)
  }

  /** The counterexample: init(1) is accepted; inserting 5 does not grow
      the table (neither growth test fires for 0 entries in 1 bucket), so
      the lookup's first probe, bucket 0, is empty and 5 is written there;
      then every probe for 7 lands on bucket 0, which holds neither 7 nor
      the empty key. */
  method OneBucketTableTraps() returns (t: Table<int, bool>)
    ensures |t.buckets| == 1 && t.entries == 1 && t.tombstones == 0
    ensures KindOf(IntKeys(), t.buckets[0]) == LiveBucket && t.buckets[0].key == 5
    ensures forall s: nat :: t.buckets[Probe(IntKeys().hash(7), s, 1)].key != 7
    ensures forall s: nat :: t.buckets[Probe(IntKeys().hash(7), s, 1)].key != IntKeys().empty
  {
    assert IsPowerOfTwo(1);
    var t0: Table<int, bool> := InitAsWritten(IntKeys(), 1);
    var idx := Probe(IntKeys().hash(5), 0, 1);
    assert KindOf(IntKeys(), t0.buckets[idx]) == EmptyBucket;
    assert !NeedsGrow(t0.entries, t0.tombstones, |t0.buckets|);
    t := Table(t0.buckets[idx := Bucket(5, Some(true))], t0.entries + 1, t0.tombstones);
    NoExitWithoutEmpty(IntKeys(), t.buckets, 7);
  }

  /** Eight buckets after inserting 0 to 5, erasing 5, inserting 6 and
      erasing 6 (no step grows the table): keys 0 to 4 live in their own
      buckets, 5 and 6 are tombstones, 7 is empty. */
  function EightBucketTable(): (t: Table<int, bool>)
    ensures |t.buckets| == 8
  {
    var live := (k: int) => Bucket(k, Some(true));
    var tomb := Bucket(IntKeys().tombstone, None);
    Table([live(0), live(1), live(2), live(3), live(4), tomb, tomb, Bucket(IntKeys().empty, None)], 5, 2)
  }

  /** The same happens with 8 buckets: the table above has 5 entries and 2
      tombstones, which pass both growth tests; the lookup for 15 meets the
      empty bucket 7 at its first probe, so 15 is written there and no
      empty bucket is left; a later lookup of 23 then never exits. */
  lemma EightBucketsFillUp()
    ensures var t := EightBucketTable();
      && IsPowerOfTwo(8)
      && t.entries == Count(IntKeys(), t.buckets, LiveBucket)
      && t.tombstones == Count(IntKeys(), t.buckets, TombstoneBucket)
      && !NeedsGrow(t.entries, t.tombstones, 8)
      && KindOf(IntKeys(), t.buckets[Probe(IntKeys().hash(15), 0, 8)]) == EmptyBucket
    ensures var bs := EightBucketTable().buckets[Probe(IntKeys().hash(15), 0, 8) := Bucket(15, Some(true))];
      && (forall s: nat :: bs[Probe(IntKeys().hash(23), s, 8)].key != 23)
      && (forall s: nat :: bs[Probe(IntKeys().hash(23), s, 8)].key != IntKeys().empty)
  {
    assert IsPowerOfTwo(2) && IsPowerOfTwo(4);
    var t := EightBucketTable();
    var bs := t.buckets;
    assert bs[..0] == [];
    assert bs[..1][..0] == bs[..0];
    assert Count(IntKeys(), bs[..1], LiveBucket) == 1 && Count(IntKeys(), bs[..1], TombstoneBucket) == 0;
    assert bs[..2][..1] == bs[..1];
    assert Count(IntKeys(), bs[..2], LiveBucket) == 2 && Count(IntKeys(), bs[..2], TombstoneBucket) == 0;
    assert bs[..3][..2] == bs[..2];
    assert Count(IntKeys(), bs[..3], LiveBucket) == 3 && Count(IntKeys(), bs[..3], TombstoneBucket) == 0;
    assert bs[..4][..3] == bs[..3];
    assert Count(IntKeys(), bs[..4], LiveBucket) == 4 && Count(IntKeys(), bs[..4], TombstoneBucket) == 0;
    assert bs[..5][..4] == bs[..4];
    assert Count(IntKeys(), bs[..5], LiveBucket) == 5 && Count(IntKeys(), bs[..5], TombstoneBucket) == 0;
    assert bs[..6][..5] == bs[..5];
    assert Count(IntKeys(), bs[..6], LiveBucket) == 5 && Count(IntKeys(), bs[..6], TombstoneBucket) == 1;
    assert bs[..7][..6] == bs[..6];
    assert Count(IntKeys(), bs[..7], LiveBucket) == 5 && Count(IntKeys(), bs[..7], TombstoneBucket) == 2;
    assert bs[..7] == bs[..7];
    assert Count(IntKeys(), bs, LiveBucket) == 5 && Count(IntKeys(), bs, TombstoneBucket) == 2;
    var full := bs[7 := Bucket(15, Some(true))];
    NoExitWithoutEmpty(IntKeys(), full, 23);
  }
}
