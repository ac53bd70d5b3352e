/** DenseMap: an open-addressing hash table.  Buckets hold a key and a
    value; two reserved keys mark a bucket that was never used (the empty
    key) and one whose entry was erased (the tombstone key).  A key lives
    in the first bucket of its probe sequence (see DenseMapProbe) that was
    free when it was inserted, so a lookup may stop at the first empty
    bucket but must step over tombstones.

    The table is a value here: every operation takes the table and
    returns the new one.  A bucket's value is `None` where the source has
    no constructed value (never written, or destroyed by erase or clear). */
module DenseMap {
  import opened Wrappers
  import opened Powers
  import opened DenseMapProbe

  /** The bucket count of a map built without an argument. */
  const DefaultBuckets: nat := 64

  /** The smallest bucket count for which the growth rule keeps an empty
      bucket after every insertion (see the findings in densemap_findings). */
  const MinBuckets: nat := 16

  /** DenseMapKeyInfo: the two reserved keys and the hash. */
  datatype KeyInfo<!K> = KeyInfo(empty: K, tombstone: K, hash: K -> nat)

  datatype Bucket<K, V> = Bucket(key: K, value: Option<V>)

  datatype Table<K, V> = Table(buckets: seq<Bucket<K, V>>, entries: nat, tombstones: nat)

  datatype Kind = EmptyBucket | TombstoneBucket | LiveBucket

  function KindOf<K(==, !new), V>(info: KeyInfo<K>, b: Bucket<K, V>): Kind {
    if b.key == info.empty then EmptyBucket
    else if b.key == info.tombstone then TombstoneBucket
    else LiveBucket
  }

  /** A key the map may store: neither reserved key. */
  predicate Ordinary<K(==, !new)>(info: KeyInfo<K>, k: K) {
    k != info.empty && k != info.tombstone
  }

  // ---------------------------------------------------------------------
  // Counting buckets by kind
  // ---------------------------------------------------------------------

  function Count<K(==, !new), V>(info: KeyInfo<K>, bs: seq<Bucket<K, V>>, kind: Kind): (c: nat)
    ensures c <= |bs|
  {
    if |bs| == 0 then 0
    else Count(info, bs[..|bs| - 1], kind) + (if KindOf(info, bs[|bs| - 1]) == kind then 1 else 0)
  }

  lemma {:induction false} CountSum<K(!new), V>(info: KeyInfo<K>, bs: seq<Bucket<K, V>>)
    ensures Count(info, bs, EmptyBucket) + Count(info, bs, TombstoneBucket) + Count(info, bs, LiveBucket) == |bs|
  {
    if |bs| > 0 {
      CountSum(info, bs[..|bs| - 1]);
    }
  }

  /** A positive count has a bucket of that kind behind it. */
  lemma {:induction false} CountWitness<K(!new), V>(info: KeyInfo<K>, bs: seq<Bucket<K, V>>, kind: Kind) returns (i: nat)
    requires Count(info, bs, kind) > 0
    ensures i < |bs| && KindOf(info, bs[i]) == kind
  {
    if KindOf(info, bs[|bs| - 1]) == kind {
      i := |bs| - 1;
    } else {
      i := CountWitness(info, bs[..|bs| - 1], kind);
    }
  }

  /** A bucket of a kind makes that kind's count positive. */
  lemma {:induction false} CountHas<K(!new), V>(info: KeyInfo<K>, bs: seq<Bucket<K, V>>, i: nat, kind: Kind)
    requires i < |bs| && KindOf(info, bs[i]) == kind
    ensures Count(info, bs, kind) > 0
  {
    if i < |bs| - 1 {
      CountHas(info, bs[..|bs| - 1], i, kind);
    }
  }

  lemma {:induction false} CountNone<K(!new), V>(info: KeyInfo<K>, bs: seq<Bucket<K, V>>, kind: Kind)
    requires forall i :: 0 <= i < |bs| ==> KindOf(info, bs[i]) != kind
    ensures Count(info, bs, kind) == 0
  {
    if |bs| > 0 {
      CountNone(info, bs[..|bs| - 1], kind);
    }
  }

  /** Overwriting one bucket moves it from its old kind's count to its new
      kind's. */
  lemma {:induction false} CountUpdate<K(!new), V>(info: KeyInfo<K>, bs: seq<Bucket<K, V>>, i: nat, b: Bucket<K, V>, kind: Kind)
    requires i < |bs|
    ensures Count(info, bs[i := b], kind) + (if KindOf(info, bs[i]) == kind then 1 else 0)
         == Count(info, bs, kind) + (if KindOf(info, b) == kind then 1 else 0)
  {
    var last := |bs| - 1;
    if i == last {
      assert bs[i := b][..last] == bs[..last];
    } else {
      CountUpdate(info, bs[..last], i, b, kind);
      assert bs[i := b][..last] == bs[..last][i := b];
    }
  }

  lemma CountPrefix<K(!new), V>(info: KeyInfo<K>, bs: seq<Bucket<K, V>>, i: nat, kind: Kind)
    requires i < |bs|
    ensures Count(info, bs[..i + 1], kind) == Count(info, bs[..i], kind) + (if KindOf(info, bs[i]) == kind then 1 else 0)
  {
    assert bs[..i + 1][..i] == bs[..i];
  }

  // ---------------------------------------------------------------------
  // The map a bucket array represents
  // ---------------------------------------------------------------------

  /** Bucket i is live and holds key k. */
  predicate Holds<K(==, !new), V>(info: KeyInfo<K>, bs: seq<Bucket<K, V>>, i: nat, k: K)
    requires i < |bs|
  {
    KindOf(info, bs[i]) == LiveBucket && bs[i].key == k
  }

  /** The first bucket at or after `from` that holds k. */
  function Scan<K(==, !new), V>(info: KeyInfo<K>, bs: seq<Bucket<K, V>>, k: K, from: nat): (r: Option<nat>)
    ensures r.Some? ==> from <= r.value < |bs| && Holds(info, bs, r.value, k)
    ensures r.None? ==> forall i :: from <= i < |bs| ==> !Holds(info, bs, i, k)
    decreases |bs| - from
  {
    if from >= |bs| then None
    else if Holds(info, bs, from, k) then Some(from)
    else Scan(info, bs, k, from + 1)
  }

  /** The value k maps to: the map the buckets represent. */
  function Get<K(==, !new), V>(info: KeyInfo<K>, bs: seq<Bucket<K, V>>, k: K): Option<V> {
    match Scan(info, bs, k, 0)
    case Some(i) => bs[i].value
    case None => None
  }

  /** No key is held by two live buckets. */
  predicate Unique<K(==, !new), V>(info: KeyInfo<K>, bs: seq<Bucket<K, V>>) {
    forall i, j ::
      (0 <= i < |bs| && 0 <= j < |bs| && KindOf(info, bs[i]) == LiveBucket
       && KindOf(info, bs[j]) == LiveBucket && bs[i].key == bs[j].key) ==> i == j
  }

  /** Exactly the live buckets hold a constructed value. */
  predicate ValuesMatch<K(==, !new), V>(info: KeyInfo<K>, bs: seq<Bucket<K, V>>) {
    forall i :: 0 <= i < |bs| ==> (bs[i].value.Some? <==> KindOf(info, bs[i]) == LiveBucket)
  }

  lemma GetAt<K(!new), V>(info: KeyInfo<K>, bs: seq<Bucket<K, V>>, i: nat, k: K)
    requires Unique(info, bs) && i < |bs| && Holds(info, bs, i, k)
    ensures Get(info, bs, k) == bs[i].value
  {
  }

  lemma GetNone<K(!new), V>(info: KeyInfo<K>, bs: seq<Bucket<K, V>>, k: K)
    requires forall i :: 0 <= i < |bs| ==> !Holds(info, bs, i, k)
    ensures Get(info, bs, k) == None
  {
  }

  lemma GetAbsent<K(!new), V>(info: KeyInfo<K>, bs: seq<Bucket<K, V>>, k: K)
    requires ValuesMatch(info, bs) && Get(info, bs, k) == None
    ensures forall i :: 0 <= i < |bs| ==> !Holds(info, bs, i, k)
  {
  }

  // ---------------------------------------------------------------------
  // The table invariant
  // ---------------------------------------------------------------------

  /** Every probe for a key with hash h before the one that reaches bucket
      i found a bucket in use: a lookup walking to i does not stop early. */
  predicate PathClear<K(==, !new), V>(info: KeyInfo<K>, bs: seq<Bucket<K, V>>, h: nat, i: nat)
    requires 0 < |bs| && i < |bs|
  {
    forall s: nat :: s < Distance(h, i, |bs|) ==> KindOf(info, bs[Probe(h, s, |bs|)]) != EmptyBucket
  }

  /** Every probe before the one that reaches bucket i skipped a bucket
      that is not a tombstone. */
  predicate NoTombstoneBefore<K(==, !new), V>(info: KeyInfo<K>, bs: seq<Bucket<K, V>>, h: nat, i: nat)
    requires 0 < |bs| && i < |bs|
  {
    forall s: nat :: s < Distance(h, i, |bs|) ==> KindOf(info, bs[Probe(h, s, |bs|)]) != TombstoneBucket
  }

  predicate PathsClear<K(==, !new), V>(info: KeyInfo<K>, bs: seq<Bucket<K, V>>)
    requires 0 < |bs|
  {
    forall i :: 0 <= i < |bs| && KindOf(info, bs[i]) == LiveBucket ==> PathClear(info, bs, info.hash(bs[i].key), i)
  }

  /** The table invariant: a power-of-two bucket count of at least
      MinBuckets, counters that agree with the buckets, at least one empty
      bucket, unique keys, values exactly in live buckets, and every live
      key reachable by a lookup that stops at the first empty bucket. */
  predicate Valid<K(==, !new), V>(info: KeyInfo<K>, t: Table<K, V>) {
    && info.empty != info.tombstone
    && IsPowerOfTwo(|t.buckets|) && |t.buckets| >= MinBuckets
    && t.entries == Count(info, t.buckets, LiveBucket)
    && t.tombstones == Count(info, t.buckets, TombstoneBucket)
    && t.entries + t.tombstones < |t.buckets|
    && Unique(info, t.buckets)
    && ValuesMatch(info, t.buckets)
    && PathsClear(info, t.buckets)
  }

  /** A valid table has an empty bucket. */
  lemma SomeBucketEmpty<K(!new), V>(info: KeyInfo<K>, t: Table<K, V>) returns (e: nat)
    requires Valid(info, t)
    ensures e < |t.buckets| && KindOf(info, t.buckets[e]) == EmptyBucket
  {
    CountSum(info, t.buckets);
    e := CountWitness(info, t.buckets, EmptyBucket);
  }

  function EmptyBuckets<K, V>(info: KeyInfo<K>, n: nat): (bs: seq<Bucket<K, V>>)
    ensures |bs| == n && forall i :: 0 <= i < n ==> bs[i] == Bucket(info.empty, None)
  {
    seq(n, i => Bucket(info.empty, None))
  }

  /** A table of n empty buckets is valid and maps nothing. */
  lemma EmptyTableValid<K(!new), V>(info: KeyInfo<K>, n: nat)
    requires info.empty != info.tombstone && IsPowerOfTwo(n) && n >= MinBuckets
    ensures Valid(info, Table(EmptyBuckets<K, V>(info, n), 0, 0))
    ensures forall k :: Get(info, EmptyBuckets<K, V>(info, n), k) == None
  {
    var bs := EmptyBuckets<K, V>(info, n);
    CountNone(info, bs, LiveBucket);
    CountNone(info, bs, TombstoneBucket);
  }

  // ---------------------------------------------------------------------
  // Writing one bucket
  // ---------------------------------------------------------------------

  /** Writing k into a non-live bucket reached along a clear path keeps the
      invariant and adds exactly k to the map. */
  lemma PlaceValid<K(!new), V>(info: KeyInfo<K>, t: Table<K, V>, k: K, v: V, idx: nat)
    requires Valid(info, t) && Ordinary(info, k) && Get(info, t.buckets, k).None?
    requires idx < |t.buckets| && KindOf(info, t.buckets[idx]) != LiveBucket
    requires PathClear(info, t.buckets, info.hash(k), idx)
    requires KindOf(info, t.buckets[idx]) == TombstoneBucket || t.entries + t.tombstones + 1 < |t.buckets|
    ensures var wasTombstone := KindOf(info, t.buckets[idx]) == TombstoneBucket;
      && t.tombstones >= (if wasTombstone then 1 else 0)
      && Valid(info, Table(t.buckets[idx := Bucket(k, Some(v))], t.entries + 1,
                           t.tombstones - (if wasTombstone then 1 else 0)))
    ensures forall k' ::
      Get(info, t.buckets[idx := Bucket(k, Some(v))], k') == if k' == k then Some(v) else Get(info, t.buckets, k')
  {
    var bs := t.buckets;
    var b := Bucket(k, Some(v));
    var bs' := bs[idx := b];
    if KindOf(info, bs[idx]) == TombstoneBucket {
      CountHas(info, bs, idx, TombstoneBucket);
    }
    CountUpdate(info, bs, idx, b, LiveBucket);
    CountUpdate(info, bs, idx, b, TombstoneBucket);
    GetAbsent(info, bs, k);
    forall i, j | 0 <= i < |bs'| && 0 <= j < |bs'| && KindOf(info, bs'[i]) == LiveBucket
      && KindOf(info, bs'[j]) == LiveBucket && bs'[i].key == bs'[j].key
      ensures i == j
    {
      if i == idx && j != idx {
        assert Holds(info, bs, j, k);
      } else if j == idx && i != idx {
        assert Holds(info, bs, i, k);
      }
    }
    forall i | 0 <= i < |bs'| && KindOf(info, bs'[i]) == LiveBucket
      ensures PathClear(info, bs', info.hash(bs'[i].key), i)
    {
      var h := info.hash(bs'[i].key);
      assert PathClear(info, bs, h, i);
    }
    forall k' | true
      ensures Get(info, bs', k') == if k' == k then Some(v) else Get(info, bs, k')
    {
      if k' == k {
        GetAt(info, bs', idx, k);
      } else if j :| 0 <= j < |bs| && Holds(info, bs, j, k') {
        GetAt(info, bs, j, k');
        GetAt(info, bs', j, k');
      } else {
        GetNone(info, bs, k');
        forall i | 0 <= i < |bs'|
          ensures !Holds(info, bs', i, k')
        {
          if i != idx {
            assert !Holds(info, bs, i, k');
          }
        }
        GetNone(info, bs', k');
      }
    }
  }

  /** Writes k and v into bucket idx, which the lookup for k chose: one more
      entry, and one tombstone fewer if the bucket held one. */
  function Place<K(==, !new), V>(info: KeyInfo<K>, t: Table<K, V>, k: K, v: V, idx: nat): (t': Table<K, V>)
    requires Valid(info, t) && Ordinary(info, k) && Get(info, t.buckets, k).None?
    requires idx < |t.buckets| && KindOf(info, t.buckets[idx]) != LiveBucket
    requires PathClear(info, t.buckets, info.hash(k), idx)
    requires KindOf(info, t.buckets[idx]) == TombstoneBucket || t.entries + t.tombstones + 1 < |t.buckets|
    ensures Valid(info, t')
    ensures |t'.buckets| == |t.buckets| && t'.buckets[idx] == Bucket(k, Some(v))
    ensures t'.entries == t.entries + 1
    ensures t'.tombstones + (if KindOf(info, t.buckets[idx]) == TombstoneBucket then 1 else 0) == t.tombstones
    ensures forall k' :: Get(info, t'.buckets, k') == if k' == k then Some(v) else Get(info, t.buckets, k')
  {
    PlaceValid(info, t, k, v, idx);
    var wasTombstone := KindOf(info, t.buckets[idx]) == TombstoneBucket;
    Table(t.buckets[idx := Bucket(k, Some(v))], t.entries + 1,
          t.tombstones - (if wasTombstone then 1 else 0))
  }

  /** Turning the live bucket of k into a tombstone keeps the invariant and
      removes exactly k from the map. */
  lemma BuryValid<K(!new), V>(info: KeyInfo<K>, t: Table<K, V>, k: K, idx: nat)
    requires Valid(info, t) && idx < |t.buckets| && Holds(info, t.buckets, idx, k)
    ensures t.entries >= 1
    ensures Valid(info, Table(t.buckets[idx := Bucket(info.tombstone, None)], t.entries - 1, t.tombstones + 1))
    ensures forall k' ::
      Get(info, t.buckets[idx := Bucket(info.tombstone, None)], k') == if k' == k then None else Get(info, t.buckets, k')
  {
    var bs := t.buckets;
    var b := Bucket(info.tombstone, None);
    var bs' := bs[idx := b];
    CountHas(info, bs, idx, LiveBucket);
    CountUpdate(info, bs, idx, b, LiveBucket);
    CountUpdate(info, bs, idx, b, TombstoneBucket);
    forall i | 0 <= i < |bs'| && KindOf(info, bs'[i]) == LiveBucket
      ensures PathClear(info, bs', info.hash(bs'[i].key), i)
    {
      var h := info.hash(bs'[i].key);
      assert PathClear(info, bs, h, i);
    }
    forall k' | true
      ensures Get(info, bs', k') == if k' == k then None else Get(info, bs, k')
    {
      if j :| 0 <= j < |bs| && Holds(info, bs, j, k') && j != idx {
        GetAt(info, bs, j, k');
        GetAt(info, bs', j, k');
      } else {
        if k' != k {
          GetNone(info, bs, k');
        }
        forall i | 0 <= i < |bs'|
          ensures !Holds(info, bs', i, k')
        {
          if i != idx {
            assert bs'[i] == bs[i];
            assert !Holds(info, bs, i, k');
          }
        }
        GetNone(info, bs', k');
      }
    }
  }

  // ---------------------------------------------------------------------
  // LookupBucketFor
  // ---------------------------------------------------------------------

  /** A lookup that reaches an empty bucket without meeting k shows that k
      is absent: k's own bucket would have been met first. */
  lemma MissedOnlyIfAbsent<K(!new), V>(info: KeyInfo<K>, t: Table<K, V>, k: K, s: nat)
    requires Valid(info, t) && Ordinary(info, k)
    requires s < |t.buckets|
    requires var n := |t.buckets|; KindOf(info, t.buckets[Probe(info.hash(k), s, n)]) == EmptyBucket
    requires var n := |t.buckets|; forall u: nat :: u < s ==> t.buckets[Probe(info.hash(k), u, n)].key != k
    ensures Get(info, t.buckets, k) == None
  {
    var bs, n, h := t.buckets, |t.buckets|, info.hash(k);
    forall j | 0 <= j < n
      ensures !Holds(info, bs, j, k)
    {
      if Holds(info, bs, j, k) {
        DistanceFacts(h, j, n);
      }
    }
    GetNone(info, bs, k);
  }

  /** LookupBucketFor: probes hash, hash + 1, hash + 3, ... (masked to the
      bucket count) until it meets k or an empty bucket.  On a hit it
      returns k's bucket; on a miss the first tombstone it stepped over, or
      else the empty bucket it stopped at. */
  method LookupBucketFor<K(==, !new), V>(info: KeyInfo<K>, t: Table<K, V>, k: K) returns (found: bool, idx: nat)
    requires Valid(info, t) && Ordinary(info, k)
    ensures idx < |t.buckets|
    ensures found <==> Get(info, t.buckets, k).Some?
    ensures found ==> Holds(info, t.buckets, idx, k)
    ensures !found ==> KindOf(info, t.buckets[idx]) != LiveBucket
    ensures !found ==> PathClear(info, t.buckets, info.hash(k), idx)
    ensures !found ==> NoTombstoneBefore(info, t.buckets, info.hash(k), idx)
  {
    var bs := t.buckets;
    var n := |bs|;
    var h := info.hash(k);
    ghost var e := SomeBucketEmpty(info, t);
    DistanceFacts(h, e, n);
    var bucketNo := h;
    var probeAmt := 1;
    var foundTombstone: Option<nat> := None;
    ghost var s := 0;
    ghost var tombStep := 0;
    while true
      invariant s <= Distance(h, e, n)
      invariant bucketNo == h + Tri(s) && probeAmt == s + 1
      invariant forall u: nat :: u < s ==> KindOf(info, bs[Probe(h, u, n)]) != EmptyBucket && bs[Probe(h, u, n)].key != k
      invariant foundTombstone.None? ==> forall u: nat :: u < s ==> KindOf(info, bs[Probe(h, u, n)]) != TombstoneBucket
      invariant foundTombstone.Some? ==>
        && tombStep < s && foundTombstone.value == Probe(h, tombStep, n)
        && KindOf(info, bs[foundTombstone.value]) == TombstoneBucket
        && forall u: nat :: u < tombStep ==> KindOf(info, bs[Probe(h, u, n)]) != TombstoneBucket
      decreases Distance(h, e, n) - s
    {
      // BucketNo & (NumBuckets - 1) is the remainder for a power of two.
      var b := bucketNo % n;
      assert b == Probe(h, s, n);
      if bs[b].key == k {
        GetAt(info, bs, b, k);
        return true, b;
      }
      if bs[b].key == info.empty {
        MissedOnlyIfAbsent(info, t, k, s);
        if foundTombstone.Some? {
          DistanceOfStep(h, n, tombStep);
          return false, foundTombstone.value;
        }
        DistanceOfStep(h, n, s);
        return false, b;
      }
      if bs[b].key == info.tombstone && foundTombstone.None? {
        foundTombstone := Some(b);
        tombStep := s;
      }
      bucketNo := bucketNo + probeAmt;
      probeAmt := probeAmt + 1;
      s := s + 1;
    }
  }

  // ---------------------------------------------------------------------
  // grow and InsertIntoBucket
  // ---------------------------------------------------------------------

  /** Extending a prefix by one bucket adds that bucket's key, if live. */
  lemma GetExtend<K(!new), V>(info: KeyInfo<K>, bs: seq<Bucket<K, V>>, i: nat, k: K)
    requires Unique(info, bs) && i < |bs|
    ensures Get(info, bs[..i + 1], k) == if Holds(info, bs, i, k) then bs[i].value else Get(info, bs[..i], k)
  {
    var p, q := bs[..i + 1], bs[..i];
    assert Unique(info, p) && Unique(info, q);
    if Holds(info, bs, i, k) {
      assert Holds(info, p, i, k);
      GetAt(info, p, i, k);
    } else if j :| 0 <= j < i && Holds(info, bs, j, k) {
      assert Holds(info, p, j, k) && Holds(info, q, j, k);
      GetAt(info, p, j, k);
      GetAt(info, q, j, k);
    } else {
      forall j | 0 <= j < |p|
        ensures !Holds(info, p, j, k)
      {
        assert p[j] == bs[j];
        assert !Holds(info, bs, j, k);
      }
      forall j | 0 <= j < |q|
        ensures !Holds(info, q, j, k)
      {
        assert q[j] == bs[j];
        assert !Holds(info, bs, j, k);
      }
      GetNone(info, p, k);
      GetNone(info, q, k);
    }
  }

  /** With unique keys, a live bucket's key is absent from the buckets
      before it. */
  lemma GetBeforeAbsent<K(!new), V>(info: KeyInfo<K>, bs: seq<Bucket<K, V>>, i: nat)
    requires Unique(info, bs) && i < |bs| && KindOf(info, bs[i]) == LiveBucket
    ensures Get(info, bs[..i], bs[i].key) == None
  {
    var q := bs[..i];
    forall j | 0 <= j < |q|
      ensures !Holds(info, q, j, bs[i].key)
    {
      assert q[j] == bs[j];
    }
    GetNone(info, q, bs[i].key);
  }

  /** grow: doubles the bucket count and re-inserts every live entry, in
      bucket order, through LookupBucketFor into fresh empty buckets; the
      tombstones do not survive. */
  method Grow<K(==, !new), V>(info: KeyInfo<K>, t: Table<K, V>) returns (t': Table<K, V>)
    requires Valid(info, t)
    ensures Valid(info, t')
    ensures |t'.buckets| == 2 * |t.buckets|
    ensures t'.entries == t.entries && t'.tombstones == 0
    ensures forall k :: Get(info, t'.buckets, k) == Get(info, t.buckets, k)
  {
    var from := t.buckets;
    var n := |from|;
    DoubleIsPowerOfTwo(n);
    EmptyTableValid<K, V>(info, 2 * n);
    t' := Table(EmptyBuckets(info, 2 * n), 0, 0);
    var i := 0;
    while i < n
      invariant 0 <= i <= n
      invariant Valid(info, t') && |t'.buckets| == 2 * n && t'.tombstones == 0
      invariant t'.entries == Count(info, from[..i], LiveBucket)
      invariant forall k :: Get(info, t'.buckets, k) == Get(info, from[..i], k)
    {
      CountPrefix(info, from, i, LiveBucket);
      forall k | true
        ensures Get(info, from[..i + 1], k) ==
          if Holds(info, from, i, k) then from[i].value else Get(info, from[..i], k)
      {
        GetExtend(info, from, i, k);
      }
      if from[i].key != info.empty && from[i].key != info.tombstone {
        var key := from[i].key;
        GetBeforeAbsent(info, from, i);
        var found, dest := LookupBucketFor(info, t', key);
        assert !found;
        t' := Place(info, t', key, from[i].value.value, dest);
      }
      i := i + 1;
    }
    assert from[..n] == from;
  }

  /** InsertIntoBucket's growth test: the load would reach three quarters,
      or fewer than an eighth of the buckets are still empty. */
  predicate NeedsGrow(entries: nat, tombstones: nat, buckets: nat)
    requires entries + tombstones <= buckets
  {
    entries * 4 >= buckets * 3 || buckets - (entries + tombstones) < buckets / 8
  }

  /** In a table of at least MinBuckets buckets that does not need to grow,
      two buckets are empty, so one is left after the insertion. */
  lemma NoGrowKeepsEmpty(entries: nat, tombstones: nat, buckets: nat)
    requires buckets >= MinBuckets && entries + tombstones < buckets
    requires !NeedsGrow(entries, tombstones, buckets)
    ensures entries + tombstones + 1 < buckets
  {
  }

  /** InsertIntoBucket: grows the table first if the growth test says so
      (and then looks k up again in the grown table), then writes k and v
      into the chosen bucket, reusing a tombstone if that is what the
      lookup returned. */
  method InsertIntoBucket<K(==, !new), V>(info: KeyInfo<K>, t: Table<K, V>, k: K, v: V, idx: nat)
    returns (t': Table<K, V>, idx': nat)
    requires Valid(info, t) && Ordinary(info, k) && Get(info, t.buckets, k).None?
    requires idx < |t.buckets| && KindOf(info, t.buckets[idx]) != LiveBucket
    requires PathClear(info, t.buckets, info.hash(k), idx)
    ensures Valid(info, t')
    ensures idx' < |t'.buckets| && t'.buckets[idx'] == Bucket(k, Some(v))
    ensures t'.entries == t.entries + 1
    ensures forall k' :: Get(info, t'.buckets, k') == if k' == k then Some(v) else Get(info, t.buckets, k')
    ensures var grow := NeedsGrow(t.entries, t.tombstones, |t.buckets|);
      && |t'.buckets| == (if grow then 2 * |t.buckets| else |t.buckets|)
      && (grow ==> t'.tombstones == 0)
      && (!grow ==> idx' == idx)
      && (!grow ==> t'.tombstones + (if KindOf(info, t.buckets[idx]) == TombstoneBucket then 1 else 0) == t.tombstones)
  {
    var cur := t;
    idx' := idx;
    if NeedsGrow(t.entries, t.tombstones, |t.buckets|) {
      cur := Grow(info, t);
      var found;
      found, idx' := LookupBucketFor(info, cur, k);
      assert !found;
    } else {
      NoGrowKeepsEmpty(t.entries, t.tombstones, |t.buckets|);
    }
    t' := Place(info, cur, k, v, idx');
  }

  // ---------------------------------------------------------------------
  // The public operations
  // ---------------------------------------------------------------------

  /** insert: a present key leaves the map alone and answers false; an
      absent one is added with its value and answers true. */
  method Insert<K(==, !new), V>(info: KeyInfo<K>, t: Table<K, V>, k: K, v: V) returns (t': Table<K, V>, inserted: bool)
    requires Valid(info, t) && Ordinary(info, k)
    ensures Valid(info, t')
    ensures inserted <==> Get(info, t.buckets, k).None?
    ensures !inserted ==> t' == t
    ensures inserted ==> t'.entries == t.entries + 1
    ensures forall k' :: Get(info, t'.buckets, k') == if k' == k && inserted then Some(v) else Get(info, t.buckets, k')
  {
    var found, idx := LookupBucketFor(info, t, k);
    if found {
      return t, false;
    }
    var at;
    t', at := InsertIntoBucket(info, t, k, v, idx);
    inserted := true;
  }

  /** erase: an absent key answers false; a present one's bucket becomes a
      tombstone, with one entry fewer and one tombstone more. */
  method Erase<K(==, !new), V>(info: KeyInfo<K>, t: Table<K, V>, k: K) returns (t': Table<K, V>, erased: bool)
    requires Valid(info, t) && Ordinary(info, k)
    ensures Valid(info, t')
    ensures erased <==> Get(info, t.buckets, k).Some?
    ensures !erased ==> t' == t
    ensures erased ==> |t'.buckets| == |t.buckets| && t'.entries == t.entries - 1 && t'.tombstones == t.tombstones + 1
    ensures forall k' :: Get(info, t'.buckets, k') == if k' == k then None else Get(info, t.buckets, k')
  {
    var found, idx := LookupBucketFor(info, t, k);
    if !found {
      return t, false;
    }
    BuryValid(info, t, k, idx);
    t' := Table(t.buckets[idx := Bucket(info.tombstone, None)], t.entries - 1, t.tombstones + 1);
    erased := true;
  }

  /** operator[]: the value of a present key, leaving the map alone;
      otherwise the key is inserted with the default value `dflt`, which
      is returned. */
  method Index<K(==, !new), V>(info: KeyInfo<K>, t: Table<K, V>, k: K, dflt: V) returns (t': Table<K, V>, v: V)
    requires Valid(info, t) && Ordinary(info, k)
    ensures Valid(info, t') && Get(info, t'.buckets, k) == Some(v)
    ensures Get(info, t.buckets, k).Some? ==> t' == t
    ensures Get(info, t.buckets, k).None? ==> v == dflt && t'.entries == t.entries + 1
    ensures forall k' :: k' != k ==> Get(info, t'.buckets, k') == Get(info, t.buckets, k')
  {
    var found, idx := LookupBucketFor(info, t, k);
    if found {
      GetAt(info, t.buckets, idx, k);
      return t, t.buckets[idx].value.value;
    }
    var at;
    t', at := InsertIntoBucket(info, t, k, dflt, idx);
    v := dflt;
  }

  // ---------------------------------------------------------------------
  // init, clear and shrink_and_clear
  // ---------------------------------------------------------------------

  lemma SmallPowersOfTwo()
    ensures IsPowerOfTwo(16) && IsPowerOfTwo(64)
  {
    assert IsPowerOfTwo(2);
    assert IsPowerOfTwo(4);
    assert IsPowerOfTwo(8);
    assert IsPowerOfTwo(16);
    assert IsPowerOfTwo(32);
  }

  /** init, with bucket counts below MinBuckets raised to it: every bucket
      empty, no entries and no tombstones. */
  method Init<K(==, !new), V>(info: KeyInfo<K>, n: nat) returns (t: Table<K, V>)
    requires info.empty != info.tombstone && IsPowerOfTwo(n)
    ensures Valid(info, t) && t.entries == 0 && t.tombstones == 0
    ensures |t.buckets| == if n < MinBuckets then MinBuckets else n
    ensures forall i :: 0 <= i < |t.buckets| ==> KindOf(info, t.buckets[i]) == EmptyBucket
    ensures forall k :: Get(info, t.buckets, k) == None
  {
    SmallPowersOfTwo();
    var count := if n < MinBuckets then MinBuckets else n;
    EmptyTableValid<K, V>(info, count);
    t := Table(EmptyBuckets(info, count), 0, 0);
  }

  /** The default constructor: init with DefaultBuckets. */
  method New<K(==, !new), V>(info: KeyInfo<K>) returns (t: Table<K, V>)
    requires info.empty != info.tombstone
    ensures Valid(info, t) && t.entries == 0 && |t.buckets| == DefaultBuckets
    ensures forall k :: Get(info, t.buckets, k) == None
  {
    SmallPowersOfTwo();
    t := Init(info, DefaultBuckets);
  }

  /** Log2_32_Ceil: the least c with 2^c >= x. */
  function Log2Ceil(x: nat): (c: nat)
    ensures Pow2(c) >= x
    ensures x >= 2 ==> c >= 1 && Pow2(c - 1) < x
    decreases x
  {
    if x <= 1 then 0 else 1 + Log2Ceil((x + 1) / 2)
  }

  /** The bucket count shrink_and_clear chooses for a table that held
      `entries` entries. */
  function ShrinkTarget(entries: nat): nat {
    if entries > 32 then Pow2(Log2Ceil(entries) + 1) else 64
  }

  /** clear shrinks a table with more than 64 buckets that is less than a
      quarter full. */
  predicate ShrinksOnClear<K, V>(t: Table<K, V>) {
    t.entries * 4 < |t.buckets| && |t.buckets| > 64
  }

  /** The shrunk table is a smaller power of two, at least 64 buckets and at
      least twice the entries it held. */
  lemma ShrinkTargetFits(entries: nat, n: nat)
    requires IsPowerOfTwo(n) && entries * 4 < n && n > 64
    ensures IsPowerOfTwo(ShrinkTarget(entries))
    ensures 64 <= ShrinkTarget(entries) < n
    ensures ShrinkTarget(entries) >= 2 * entries
  {
    SmallPowersOfTwo();
    if entries > 32 {
      var c := Log2Ceil(entries);
      Pow2IsPowerOfTwo(c + 1);
      assert Pow2(c + 1) == 4 * Pow2(c - 1);
    }
  }

  /** shrink_and_clear: a fresh table of ShrinkTarget(entries) empty
      buckets. */
  method ShrinkAndClear<K(==, !new), V>(info: KeyInfo<K>, t: Table<K, V>) returns (t': Table<K, V>)
    requires Valid(info, t) && ShrinksOnClear(t)
    ensures Valid(info, t') && t'.entries == 0 && t'.tombstones == 0
    ensures |t'.buckets| == ShrinkTarget(t.entries) && 64 <= |t'.buckets| < |t.buckets|
    ensures forall i :: 0 <= i < |t'.buckets| ==> t'.buckets[i] == Bucket(info.empty, None)
    ensures forall k :: Get(info, t'.buckets, k) == None
  {
    ShrinkTargetFits(t.entries, |t.buckets|);
    var count := ShrinkTarget(t.entries);
    EmptyTableValid<K, V>(info, count);
    t' := Table(EmptyBuckets(info, count), 0, 0);
  }

  /** The in-place half of clear: every bucket that is not empty is made
      empty, its value destroyed if it was live, and the entry count goes
      down once per live bucket, ending at zero. */
  method ClearInPlace<K(==, !new), V>(info: KeyInfo<K>, t: Table<K, V>) returns (t': Table<K, V>)
    requires Valid(info, t)
    ensures Valid(info, t') && t'.entries == 0 && t'.tombstones == 0 && |t'.buckets| == |t.buckets|
    ensures forall i :: 0 <= i < |t'.buckets| ==> t'.buckets[i] == Bucket(info.empty, None)
  {
    var bs := t.buckets;
    var entries: int := t.entries;
    var i := 0;
    while i < |bs|
      invariant 0 <= i <= |bs| == |t.buckets|
      invariant forall j :: 0 <= j < i ==> bs[j] == Bucket(info.empty, None)
      invariant forall j :: i <= j < |bs| ==> bs[j] == t.buckets[j]
      invariant entries + Count(info, t.buckets[..i], LiveBucket) == t.entries
    {
      CountPrefix(info, t.buckets, i, LiveBucket);
      if bs[i].key != info.empty {
        if bs[i].key != info.tombstone {
          entries := entries - 1;
        }
        bs := bs[i := Bucket(info.empty, None)];
      }
      i := i + 1;
    }
    assert t.buckets[..i] == t.buckets;
    assert entries == 0;
    EmptyTableValid<K, V>(info, |bs|);
    assert bs == EmptyBuckets(info, |bs|);
    t' := Table(bs, 0, 0);
  }

  /** clear: shrinks a large, sparse table, and otherwise empties it in
      place; either way nothing is left in the map. */
  method Clear<K(==, !new), V>(info: KeyInfo<K>, t: Table<K, V>) returns (t': Table<K, V>)
    requires Valid(info, t)
    ensures Valid(info, t') && t'.entries == 0 && t'.tombstones == 0
    ensures |t'.buckets| == if ShrinksOnClear(t) then ShrinkTarget(t.entries) else |t.buckets|
    ensures forall i :: 0 <= i < |t'.buckets| ==> t'.buckets[i] == Bucket(info.empty, None)
    ensures forall k :: Get(info, t'.buckets, k) == None
  {
    if t.entries * 4 < |t.buckets| && |t.buckets| > 64 {
      t' := ShrinkAndClear(info, t);
    } else {
      t' := ClearInPlace(info, t);
      EmptyTableValid<K, V>(info, |t'.buckets|);
      assert t'.buckets == EmptyBuckets(info, |t'.buckets|);
    }
  }

  // ---------------------------------------------------------------------
  // Iteration
  // ---------------------------------------------------------------------

  /** DenseMapIterator's AdvancePastEmptyBuckets: from p, the first live
      bucket, or the end. */
  method AdvancePastEmptyBuckets<K(==, !new), V>(info: KeyInfo<K>, bs: seq<Bucket<K, V>>, p: nat) returns (q: nat)
    requires p <= |bs|
    ensures p <= q <= |bs|
    ensures forall j :: p <= j < q ==> KindOf(info, bs[j]) != LiveBucket
    ensures q < |bs| ==> KindOf(info, bs[q]) == LiveBucket
  {
    q := p;
    while q != |bs| && (bs[q].key == info.empty || bs[q].key == info.tombstone)
      invariant p <= q <= |bs|
      invariant forall j :: p <= j < q ==> KindOf(info, bs[j]) != LiveBucket
    {
      q := q + 1;
    }
  }

  /** The keys of the live buckets, in bucket order. */
  function LiveKeys<K(==, !new), V>(info: KeyInfo<K>, bs: seq<Bucket<K, V>>): (ks: seq<K>)
    ensures |ks| == Count(info, bs, LiveBucket)
  {
    if |bs| == 0 then []
    else LiveKeys(info, bs[..|bs| - 1]) + (if KindOf(info, bs[|bs| - 1]) == LiveBucket then [bs[|bs| - 1].key] else [])
  }

  lemma {:induction false} LiveKeysSkip<K(!new), V>(info: KeyInfo<K>, bs: seq<Bucket<K, V>>, p: nat, q: nat)
    requires p <= q <= |bs|
    requires forall j :: p <= j < q ==> KindOf(info, bs[j]) != LiveBucket
    ensures LiveKeys(info, bs[..q]) == LiveKeys(info, bs[..p])
    decreases q
  {
    if p < q {
      LiveKeysSkip(info, bs, p, q - 1);
      assert bs[..q][..q - 1] == bs[..q - 1];
    }
  }

  lemma {:induction false} LiveKeysMembers<K(!new), V>(info: KeyInfo<K>, bs: seq<Bucket<K, V>>, k: K)
    ensures k in LiveKeys(info, bs) <==> exists i :: 0 <= i < |bs| && Holds(info, bs, i, k)
  {
    if |bs| > 0 {
      var last := |bs| - 1;
      var q := bs[..last];
      LiveKeysMembers(info, q, k);
      var tail := if KindOf(info, bs[last]) == LiveBucket then [bs[last].key] else [];
      assert LiveKeys(info, bs) == LiveKeys(info, q) + tail;
      if k in tail {
        assert Holds(info, bs, last, k);
      }
      if i :| 0 <= i < |q| && Holds(info, q, i, k) {
        assert Holds(info, bs, i, k);
      }
      if i :| 0 <= i < |bs| && Holds(info, bs, i, k) {
        if i < last {
          assert Holds(info, q, i, k);
        } else {
          assert k in LiveKeys(info, bs);
        }
      }
    }
  }

  /** The keys of the live buckets are the map's keys. */
  lemma LiveKeysAreKeys<K(!new), V>(info: KeyInfo<K>, t: Table<K, V>)
    requires Valid(info, t)
    ensures |LiveKeys(info, t.buckets)| == t.entries
    ensures forall k :: k in LiveKeys(info, t.buckets) <==> Get(info, t.buckets, k).Some?
  {
    var bs := t.buckets;
    forall k | true
      ensures k in LiveKeys(info, bs) <==> Get(info, bs, k).Some?
    {
      LiveKeysMembers(info, bs, k);
      if i :| 0 <= i < |bs| && Holds(info, bs, i, k) {
        GetAt(info, bs, i, k);
      } else {
        GetNone(info, bs, k);
      }
    }
  }

  lemma LiveKeysStep<K(!new), V>(info: KeyInfo<K>, bs: seq<Bucket<K, V>>, p: nat)
    requires p < |bs| && KindOf(info, bs[p]) == LiveBucket
    ensures LiveKeys(info, bs[..p + 1]) == LiveKeys(info, bs[..p]) + [bs[p].key]
  {
    assert bs[..p + 1][..p] == bs[..p];
  }

  /** Iterating from begin() to end(): the keys met are exactly the map's
      keys, each once. */
  method Keys<K(==, !new), V>(info: KeyInfo<K>, t: Table<K, V>) returns (ks: seq<K>)
    requires Valid(info, t)
    ensures |ks| == t.entries
    ensures forall k :: k in ks <==> Get(info, t.buckets, k).Some?
  {
    var bs := t.buckets;
    var p := AdvancePastEmptyBuckets(info, bs, 0);
    LiveKeysSkip(info, bs, 0, p);
    ks := [];
    while p < |bs|
      invariant 0 <= p <= |bs|
      invariant p < |bs| ==> KindOf(info, bs[p]) == LiveBucket
      invariant ks == LiveKeys(info, bs[..p])
      decreases |bs| - p
    {
      LiveKeysStep(info, bs, p);
      ks := ks + [bs[p].key];
      var q := AdvancePastEmptyBuckets(info, bs, p + 1);
      LiveKeysSkip(info, bs, p + 1, q);
      p := q;
    }
    assert bs[..p] == bs;
    LiveKeysAreKeys(info, t);
  }
}
