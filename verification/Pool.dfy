/** Pure facts about pools of bucket indices.

    A bucketIndex_t packs a 56-bit bucket number and an 8-bit slot into one integer
    (src/modules/filesystem/hash.h); it is modelled by that integer,
    bucket * 256 + slot. */
module Pool {
  import opened NodeLists

  const CHUNKS_IN_BUCKET: nat := 256
  const MAX_BUCKETS: nat := 10
  const RECORDS: nat := 2560

  function BucketOf(index: nat): nat {
    index / CHUNKS_IN_BUCKET
  }

  function IndexOf(bucket: nat, slot: nat): (index: nat)
    requires slot < CHUNKS_IN_BUCKET
    ensures BucketOf(index) == bucket && index % CHUNKS_IN_BUCKET == slot
  {
    bucket * CHUNKS_IN_BUCKET + slot
  }

  /** Every index of every bucket in the set. */
  ghost function Indices(buckets: set<nat>): (all: set<nat>)
    ensures forall x: nat :: x in all <==> BucketOf(x) in buckets
  {
    var all := set b, k | b in buckets && 0 <= k < CHUNKS_IN_BUCKET :: IndexOf(b, k);
    assert forall x: nat :: BucketOf(x) in buckets ==> x in all by {
      forall x: nat | BucketOf(x) in buckets ensures x in all {
        assert x == IndexOf(BucketOf(x), x % CHUNKS_IN_BUCKET);
      }
    }
    all
  }

  ghost predicate InRange(nodes: seq<int>, n: nat) {
    forall i :: 0 <= i < |nodes| ==> 0 <= nodes[i] < n
  }

  /** The first n indices of bucket 1, which mkfs keeps for itself. */
  ghost function Reserved(n: nat): (r: set<nat>)
    requires n <= CHUNKS_IN_BUCKET
    ensures forall x: nat :: x in r <==> IndexOf(1, 0) <= x < IndexOf(1, 0) + n
  {
    set x | x in Indices({1}) && x < IndexOf(1, 0) + n
  }

  /** The indices stored in the listed records. */
  ghost function Stored(data: seq<nat>, nodes: seq<int>): set<nat>
    requires InRange(nodes, |data|)
  {
    set i | 0 <= i < |nodes| :: data[nodes[i]]
  }

  ghost predicate DistinctData(data: seq<nat>, nodes: seq<int>)
    requires InRange(nodes, |data|)
  {
    forall i, j :: 0 <= i < j < |nodes| ==> data[nodes[i]] != data[nodes[j]]
  }

  /** All 256 indices of the bucket are in the pool: the bucket holds nothing. */
  ghost predicate Full(pool: set<nat>, bucket: nat) {
    forall k :: 0 <= k < CHUNKS_IN_BUCKET ==> IndexOf(bucket, k) in pool
  }

  ghost function InOrder(n: nat): (nodes: seq<int>)
    ensures |nodes| == n && InRange(nodes, n) && NoDup(nodes)
    ensures forall i :: 0 <= i < n ==> nodes[i] == i
  {
    seq(n, i => i)
  }

  ghost function FullBuckets(pool: set<nat>, buckets: set<nat>): set<nat> {
    set b | b in buckets && Full(pool, b)
  }

  // ---------- counting ----------

  ghost function Elements<T>(s: seq<T>): set<T> {
    set i | 0 <= i < |s| :: s[i]
  }

  lemma ElementsPush<T>(s: seq<T>, x: T)
    ensures Elements(s + [x]) == Elements(s) + {x}
  {
    forall y | y in Elements(s) ensures y in Elements(s + [x]) {
      var i :| 0 <= i < |s| && s[i] == y;
      assert (s + [x])[i] == y;
    }
    assert (s + [x])[|s|] == x;
  }

  lemma NoDupPush<T>(s: seq<T>, x: T)
    requires NoDup(s) && x !in Elements(s)
    ensures NoDup(s + [x]) && Elements(s + [x]) == Elements(s) + {x}
  {
    ElementsPush(s, x);
    forall i | 0 <= i < |s| ensures s[i] != x {
      assert s[i] in Elements(s);
    }
  }

  lemma ElementsCons<T>(x: T, s: seq<T>)
    ensures Elements([x] + s) == {x} + Elements(s)
  {
    forall y | y in Elements(s) ensures y in Elements([x] + s) {
      var i :| 0 <= i < |s| && s[i] == y;
      assert ([x] + s)[i + 1] == y;
    }
    assert ([x] + s)[0] == x;
  }

  lemma {:induction false} NoDupSize<T>(s: seq<T>)
    requires NoDup(s)
    ensures |Elements(s)| == |s|
  {
    if s != [] {
      var front, last := s[..|s| - 1], s[|s| - 1];
      NoDupSize(front);
      assert Elements(s) == Elements(front) + {last};
      assert last !in Elements(front);
    }
  }

  ghost function Below(n: nat): (all: set<int>)
    ensures forall i: int :: i in all <==> 0 <= i < n
  {
    if n == 0 then {} else Below(n - 1) + {n - 1}
  }

  lemma {:induction false} BelowSize(n: nat)
    ensures |Below(n)| == n
  {
    if n > 0 {
      BelowSize(n - 1);
      assert Below(n) == Below(n - 1) + {n - 1};
    } else {
      assert Below(0) == {};
    }
  }

  lemma SubsetSize<T>(small: set<T>, large: set<T>)
    requires small <= large
    ensures |small| <= |large|
    ensures |small| == |large| ==> small == large
  {
    assert large == small + (large - small);
    assert |large| == |small| + |large - small|;
  }

  /** n distinct numbers below n are all the numbers below n. */
  lemma NoDupIsOnto(s: seq<int>, n: nat)
    requires NoDup(s) && InRange(s, n) && |s| == n
    ensures forall k :: 0 <= k < n ==> k in s
  {
    NoDupSize(s);
    BelowSize(n);
    SubsetSize(Elements(s), Below(n));
    forall k | 0 <= k < n ensures k in s {
      assert k in Below(n);
      assert k in Elements(s);
    }
  }

  /** What the counting loop of releaseBuckets accumulates for one bucket. */
  function CountIn(data: seq<nat>, bucket: nat): (n: nat)
    ensures n <= |data|
  {
    if data == [] then 0
    else CountIn(data[..|data| - 1], bucket) + (if BucketOf(data[|data| - 1]) == bucket then 1 else 0)
  }

  ghost function Inside(pool: set<nat>, bucket: nat): set<nat> {
    set x | x in pool && BucketOf(x) == bucket
  }

  lemma {:induction false} CountIsSize(data: seq<nat>, bucket: nat)
    requires NoDup(data)
    ensures CountIn(data, bucket) == |Inside(Elements(data), bucket)|
  {
    if data == [] {
      assert Inside(Elements(data), bucket) == {};
    } else {
      var front, last := data[..|data| - 1], data[|data| - 1];
      CountIsSize(front, bucket);
      assert Elements(data) == Elements(front) + {last};
      assert last !in Elements(front);
      if BucketOf(last) == bucket {
        assert Inside(Elements(data), bucket) == Inside(Elements(front), bucket) + {last};
      } else {
        assert Inside(Elements(data), bucket) == Inside(Elements(front), bucket);
      }
    }
  }

  ghost function Slots(bucket: nat, n: nat): set<nat>
    requires n <= CHUNKS_IN_BUCKET
  {
    set k | 0 <= k < n :: IndexOf(bucket, k)
  }

  lemma {:induction false} SlotsSize(bucket: nat, n: nat)
    requires n <= CHUNKS_IN_BUCKET
    ensures |Slots(bucket, n)| == n
  {
    if n == 0 {
      assert Slots(bucket, n) == {};
    } else {
      SlotsSize(bucket, n - 1);
      assert Slots(bucket, n) == Slots(bucket, n - 1) + {IndexOf(bucket, n - 1)};
      assert IndexOf(bucket, n - 1) !in Slots(bucket, n - 1);
    }
  }

  lemma InsideBound(pool: set<nat>, bucket: nat)
    ensures |Inside(pool, bucket)| <= CHUNKS_IN_BUCKET
    ensures |Inside(pool, bucket)| == CHUNKS_IN_BUCKET <==> Full(pool, bucket)
  {
    var all := Slots(bucket, CHUNKS_IN_BUCKET);
    SlotsSize(bucket, CHUNKS_IN_BUCKET);
    forall x | x in Inside(pool, bucket) ensures x in all {
      assert x == IndexOf(bucket, x % CHUNKS_IN_BUCKET);
    }
    SubsetSize(Inside(pool, bucket), all);
    if Full(pool, bucket) {
      assert all <= Inside(pool, bucket);
      SubsetSize(all, Inside(pool, bucket));
    }
    if |Inside(pool, bucket)| == CHUNKS_IN_BUCKET {
      forall k | 0 <= k < CHUNKS_IN_BUCKET ensures IndexOf(bucket, k) in pool {
        assert IndexOf(bucket, k) in all;
      }
    }
  }

  /** The counting loop finds 256 entries of a bucket exactly when the bucket is full. */
  lemma CountFindsFull(data: seq<nat>, bucket: nat)
    requires NoDup(data)
    ensures CountIn(data, bucket) == CHUNKS_IN_BUCKET <==> Full(Elements(data), bucket)
  {
    CountIsSize(data, bucket);
    InsideBound(Elements(data), bucket);
  }

  lemma SplitSize<T>(whole: set<T>, part: set<T>)
    requires part <= whole
    ensures |whole| == |whole - part| + |part|
  {
    assert whole == (whole - part) + part;
  }

  /** Taking one bucket's indices out of a pool without full buckets. */
  lemma WithoutBucket(pool: set<nat>, buckets: set<nat>, b: nat)
    requires pool <= Indices(buckets) && FullBuckets(pool, buckets) == {} && b in buckets
    ensures pool - Inside(pool, b) <= Indices(buckets - {b})
    ensures FullBuckets(pool - Inside(pool, b), buckets - {b}) == {}
    ensures |Inside(pool, b)| < CHUNKS_IN_BUCKET && Inside(pool, b) <= pool
  {
    InsideBound(pool, b);
    assert b !in FullBuckets(pool, buckets);
    forall c | c in buckets - {b} ensures !Full(pool - Inside(pool, b), c) {
      assert c !in FullBuckets(pool, buckets);
    }
  }

  /** A pool in which no bucket is full holds at most 255 indices a bucket. */
  lemma {:induction false} PoolBound(pool: set<nat>, buckets: set<nat>)
    requires pool <= Indices(buckets) && FullBuckets(pool, buckets) == {}
    ensures |pool| <= (CHUNKS_IN_BUCKET - 1) * |buckets|
    decreases |buckets|
  {
    if buckets == {} {
      assert pool == {};
    } else {
      hide Inside, FullBuckets, Indices;
      var b :| b in buckets;
      WithoutBucket(pool, buckets, b);
      PoolBound(pool - Inside(pool, b), buckets - {b});
      SplitSize(pool, Inside(pool, b));
      SplitSize(buckets, {b});
    }
  }

  /** The pigeonhole argument behind the "crash due to fragmentation" assertion: with
      every record in use and at most ten buckets, some bucket is wholly free. */
  lemma TenBucketsSuffice(pool: set<nat>, buckets: set<nat>)
    requires pool <= Indices(buckets)
    requires |pool| == RECORDS && |buckets| <= MAX_BUCKETS
    ensures FullBuckets(pool, buckets) != {}
  {
    if FullBuckets(pool, buckets) == {} {
      PoolBound(pool, buckets);
    }
  }

  /** Record i of a full pool that leaves slot 0 of every bucket in use. */
  function FragmentedRecord(i: nat): (index: nat)
    ensures BucketOf(index) == 1 + i / 255 && index % CHUNKS_IN_BUCKET == 1 + i % 255
  {
    IndexOf(1 + i / 255, 1 + i % 255)
  }

  ghost function FragmentedPool(n: nat): (pool: set<nat>)
    ensures forall x :: x in pool ==> x % CHUNKS_IN_BUCKET != 0
    ensures n <= RECORDS ==> forall x :: x in pool ==> 1 <= BucketOf(x) <= 11
  {
    if n == 0 then {} else FragmentedPool(n - 1) + {FragmentedRecord(n - 1)}
  }

  lemma {:induction false} FragmentedPoolSize(n: nat)
    ensures |FragmentedPool(n)| == n && FragmentedRecord(n) !in FragmentedPool(n)
    ensures forall x :: x in FragmentedPool(n) ==> (BucketOf(x) - 1) * 255 + x % CHUNKS_IN_BUCKET - 1 < n
  {
    assert n / 255 * 255 + n % 255 == n;
    if n > 0 {
      FragmentedPoolSize(n - 1);
      assert (n - 1) / 255 * 255 + (n - 1) % 255 == n - 1;
    }
  }

  lemma FragmentedPoolNext(n: nat)
    ensures FragmentedPool(n + 1) == FragmentedPool(n) + {FragmentedRecord(n)}
  {
  }

  lemma FragmentedPoolHasNoFullBucket(n: nat, buckets: set<nat>)
    requires n <= RECORDS
    requires forall b :: b in buckets <==> 1 <= b <= MAX_BUCKETS + 1
    ensures FragmentedPool(n) <= Indices(buckets)
    ensures FullBuckets(FragmentedPool(n), buckets) == {}
    ensures IndexOf(1, 0) in Indices(buckets) - FragmentedPool(n)
  {
    forall b | b in buckets ensures !Full(FragmentedPool(n), b) {
      assert IndexOf(b, 0) !in FragmentedPool(n);
    }
  }

  // ---------- the state of the allocator, as a value ----------

  /** Every record is on exactly one list; free records carry 0, available records carry
      distinct non-zero indices of buckets in use. */
  ghost predicate PoolInv(data: seq<nat>, avail: seq<int>, free: seq<int>, buckets: set<nat>) {
    && InRange(avail, |data|) && InRange(free, |data|)
    && NoDup(avail) && NoDup(free)
    && (forall n :: n in avail ==> n !in free)
    && |avail| + |free| == |data|
    && (forall i :: 0 <= i < |free| ==> data[free[i]] == 0)
    && DistinctData(data, avail)
    && (forall i :: 0 <= i < |avail| ==> BucketOf(data[avail[i]]) in buckets)
    && 0 !in buckets
  }

  /** Handed out and not returned. */
  ghost function Held(data: seq<nat>, avail: seq<int>, buckets: set<nat>): set<nat>
    requires InRange(avail, |data|)
  {
    Indices(buckets) - Stored(data, avail)
  }

  lemma EmptyPool(data: seq<nat>, free: seq<int>, buckets: set<nat>)
    requires NoDup(free) && InRange(free, |data|) && |free| == |data| && 0 !in buckets
    requires forall i :: 0 <= i < |data| ==> data[i] == 0
    ensures PoolInv(data, [], free, buckets)
    ensures Held(data, [], buckets) == Indices(buckets)
  {
  }

  /** The number of available records is the number of indices in the pool. */
  lemma StoredSize(data: seq<nat>, avail: seq<int>, free: seq<int>, buckets: set<nat>)
    requires PoolInv(data, avail, free, buckets)
    ensures |Stored(data, avail)| == |avail|
    ensures Stored(data, avail) == Indices(buckets) - Held(data, avail, buckets)
  {
    var stored := seq(|avail|, i requires 0 <= i < |avail| => data[avail[i]]);
    NoDupSize(stored);
    forall x | x in Stored(data, avail) ensures x in Elements(stored) {
      var i :| 0 <= i < |avail| && data[avail[i]] == x;
      assert stored[i] == x;
    }
    assert Elements(stored) == Stored(data, avail);
  }

  /** Moving the first available node to the free list hands out its index. */
  lemma TakeOne(data: seq<nat>, avail: seq<int>, free: seq<int>, buckets: set<nat>)
    requires PoolInv(data, avail, free, buckets) && avail != []
    ensures PoolInv(data[avail[0] := 0], avail[1..], [avail[0]] + free, buckets)
    ensures data[avail[0]] != 0 && data[avail[0]] !in Held(data, avail, buckets)
    ensures Held(data[avail[0] := 0], avail[1..], buckets) == Held(data, avail, buckets) + {data[avail[0]]}
  {
    var node, data' := avail[0], data[avail[0] := 0];
    assert BucketOf(0) == 0;
    forall i | 0 <= i < |avail| - 1 ensures data'[avail[1..][i]] == data[avail[i + 1]] {
      assert avail[i + 1] != node;
    }
    assert forall n :: n in avail[1..] ==> n in avail;
    assert Stored(data, avail) == Stored(data', avail[1..]) + {data[node]} by {
      forall x | x in Stored(data, avail) ensures x in Stored(data', avail[1..]) + {data[node]} {
        var i :| 0 <= i < |avail| && data[avail[i]] == x;
        if i > 0 {
          assert data'[avail[1..][i - 1]] == x;
        }
      }
    }
    forall i | 0 <= i < |avail| - 1 ensures data'[avail[1..][i]] != data[node] {
      assert data[avail[i + 1]] != data[avail[0]];
    }
  }

  lemma StoredPush(data: seq<nat>, avail: seq<int>, node: int, index: nat)
    requires InRange(avail, |data|) && 0 <= node < |data| && node !in avail
    ensures Stored(data[node := index], [node] + avail) == Stored(data, avail) + {index}
  {
    var data', avail' := data[node := index], [node] + avail;
    forall i | 1 <= i < |avail'| ensures data'[avail'[i]] == data[avail[i - 1]] {
      assert avail[i - 1] in avail;
    }
    forall x | x in Stored(data, avail) ensures x in Stored(data', avail') {
      var i :| 0 <= i < |avail| && data[avail[i]] == x;
      assert data'[avail'[i + 1]] == x;
    }
    assert data'[avail'[0]] == index;
  }

  /** Moving a free node to the available list with an outstanding index returns it. */
  lemma GiveOne(data: seq<nat>, avail: seq<int>, free: seq<int>, buckets: set<nat>, index: nat)
    requires PoolInv(data, avail, free, buckets) && free != []
    requires index in Held(data, avail, buckets)
    ensures PoolInv(data[free[0] := index], [free[0]] + avail, free[1..], buckets)
    ensures Held(data[free[0] := index], [free[0]] + avail, buckets) == Held(data, avail, buckets) - {index}
  {
    var node, data' := free[0], data[free[0] := index];
    var avail' := [node] + avail;
    assert node !in avail;
    StoredPush(data, avail, node, index);
    forall i | 1 <= i < |avail'|
      ensures avail'[i] != node && data'[avail'[i]] == data[avail[i - 1]] != index
    {
      assert avail[i - 1] in avail;
      assert data[avail[i - 1]] in Stored(data, avail);
    }
    assert forall n :: n in free[1..] ==> n in free && n != node;
    assert forall i :: 0 <= i < |free| - 1 ==> free[1..][i] in free[1..];
  }

  lemma NothingStored(data: seq<nat>, buckets: set<nat>)
    ensures Held(data, [], buckets) == Indices(buckets)
  {
  }

  ghost predicate NewBuckets(created: seq<nat>, buckets: set<nat>) {
    NoDup(created) && forall i :: 0 <= i < |created| ==> created[i] != 0 && created[i] !in buckets
  }

  /** The first records hold the indices of the created buckets, in order. */
  ghost predicate FilledBy(data: seq<nat>, created: seq<nat>) {
    && |created| * CHUNKS_IN_BUCKET <= |data|
    && forall k :: 0 <= k < |created| * CHUNKS_IN_BUCKET ==>
         data[k] == IndexOf(created[k / CHUNKS_IN_BUCKET], k % CHUNKS_IN_BUCKET)
  }

  lemma FilledNext(data: seq<nat>, data': seq<nat>, created: seq<nat>, bucket: nat)
    requires FilledBy(data, created) && |data'| == |data| && (|created| + 1) * CHUNKS_IN_BUCKET <= |data|
    requires forall k :: 0 <= k < |created| * CHUNKS_IN_BUCKET ==> data'[k] == data[k]
    requires forall k :: |created| * CHUNKS_IN_BUCKET <= k < (|created| + 1) * CHUNKS_IN_BUCKET ==>
               data'[k] == IndexOf(bucket, k - |created| * CHUNKS_IN_BUCKET)
    ensures FilledBy(data', created + [bucket])
  {
  }

  /** A bucket number that no bucket in use has. */
  lemma NewBucketNext(created: seq<nat>, buckets: set<nat>, b: nat)
    requires NewBuckets(created, buckets) && b != 0 && b !in buckets + Elements(created)
    ensures NewBuckets(created + [b], buckets)
    ensures buckets + Elements(created + [b]) == buckets + Elements(created) + {b}
  {
    NoDupPush(created, b);
  }

  /** A pool refilled with new buckets holds exactly their indices. */
  lemma RefilledPool(data: seq<nat>, created: seq<nat>, buckets: set<nat>)
    requires NewBuckets(created, buckets) && 0 !in buckets
    requires |data| == |created| * CHUNKS_IN_BUCKET
    requires FilledBy(data, created)
    ensures PoolInv(data, InOrder(|data|), [], buckets + Elements(created))
    ensures Held(data, InOrder(|data|), buckets + Elements(created)) == Indices(buckets)
  {
    var nodes := InOrder(|data|);
    forall i | 0 <= i < |nodes| ensures BucketOf(data[nodes[i]]) in Elements(created) {
      assert BucketOf(data[i]) == created[i / CHUNKS_IN_BUCKET];
    }
    forall x: nat | BucketOf(x) in Elements(created) ensures x in Stored(data, nodes) {
      var i :| 0 <= i < |created| && created[i] == BucketOf(x);
      var k := i * CHUNKS_IN_BUCKET + x % CHUNKS_IN_BUCKET;
      assert k / CHUNKS_IN_BUCKET == i && k % CHUNKS_IN_BUCKET == x % CHUNKS_IN_BUCKET;
      assert x == IndexOf(BucketOf(x), x % CHUNKS_IN_BUCKET);
      assert data[nodes[k]] == x;
    }
  }

  // ---------- releasing buckets ----------

  lemma CountPush(data: seq<nat>, x: nat)
    ensures forall b :: CountIn(data + [x], b) == CountIn(data, b) + if BucketOf(x) == b then 1 else 0
  {
    assert (data + [x])[..|data|] == data;
  }

  /** When no record is free, the records themselves are the pool. */
  lemma AllAvailable(data: seq<nat>, avail: seq<int>, buckets: set<nat>)
    requires PoolInv(data, avail, [], buckets)
    ensures NoDup(data) && Elements(data) == Stored(data, avail)
    ensures forall k :: 0 <= k < |data| ==> data[k] != 0 && BucketOf(data[k]) in buckets
  {
    NoDupIsOnto(avail, |data|);
    assert BucketOf(0) == 0;
    forall j, k | 0 <= j < k < |data| ensures data[j] != data[k] {
      assert j in avail && k in avail;
    }
    forall k | 0 <= k < |data|
      ensures data[k] in Stored(data, avail) && data[k] != 0 && BucketOf(data[k]) in buckets
    {
      assert k in avail;
    }
  }

  /** The buckets the counting loop selects are the full ones. */
  lemma ReleasableBuckets(data: seq<nat>, counts: map<nat, nat>, pool: set<nat>, buckets: set<nat>, toDelete: set<nat>)
    requires NoDup(data) && pool == Elements(data)
    requires forall k :: 0 <= k < |data| ==> BucketOf(data[k]) in buckets
    requires forall b :: CountIn(data, b) == if b in counts then counts[b] else 0
    requires toDelete == set b | b in counts && counts[b] == CHUNKS_IN_BUCKET
    ensures toDelete == FullBuckets(pool, buckets)
  {
    forall b: nat ensures b in toDelete <==> b in buckets && Full(pool, b) {
      CountFindsFull(data, b);
      if Full(pool, b) {
        assert IndexOf(b, 0) in pool;
        var k :| 0 <= k < |data| && data[k] == IndexOf(b, 0);
      }
    }
  }

  /** With every record in use, at most ten buckets leave one to release. */
  lemma NoneReleasable(pool: set<nat>, buckets: set<nat>, data: seq<nat>)
    requires NoDup(data) && pool == Elements(data) && |data| == RECORDS
    requires forall k :: 0 <= k < |data| ==> BucketOf(data[k]) in buckets
    requires FullBuckets(pool, buckets) == {}
    ensures |buckets| > MAX_BUCKETS
  {
    NoDupSize(data);
    if |buckets| <= MAX_BUCKETS {
      TenBucketsSuffice(pool, buckets);
    }
  }

  /** The first k records are split into kept ones, which are untouched, and emptied ones. */
  ghost predicate SplitBelow(old_data: seq<nat>, data: seq<nat>, keep: seq<int>, del: seq<int>, toDelete: set<nat>, k: nat) {
    && |old_data| == |data|
    && InRange(keep, k) && InRange(del, k) && k <= |data|
    && NoDup(keep) && NoDup(del) && |keep| + |del| == k
    && (forall n :: 0 <= n < k ==> n in keep || n in del)
    && (forall n :: n in keep ==> 0 <= n < k && data[n] == old_data[n] != 0 && BucketOf(old_data[n]) !in toDelete)
    && (forall n :: n in del ==> 0 <= n < k && data[n] == 0 && (old_data[n] == 0 || BucketOf(old_data[n]) in toDelete))
  }

  ghost predicate Split(old_data: seq<nat>, data: seq<nat>, keep: seq<int>, del: seq<int>, toDelete: set<nat>) {
    SplitBelow(old_data, data, keep, del, toDelete, |data|)
  }

  /** Releasing full buckets leaves the outstanding indices alone and frees a record. */
  lemma ReleasedPool(data: seq<nat>, avail: seq<int>, data': seq<nat>, keep: seq<int>, del: seq<int>,
                     buckets: set<nat>, toDelete: set<nat>)
    requires PoolInv(data, avail, [], buckets)
    requires toDelete == FullBuckets(Stored(data, avail), buckets)
    requires Split(data, data', keep, del, toDelete)
    ensures PoolInv(data', keep, del, buckets - toDelete)
    ensures Held(data', keep, buckets - toDelete) == Held(data, avail, buckets)
    ensures toDelete != {} ==> del != []
  {
    AllAvailable(data, avail, buckets);
    forall n | n in keep ensures n !in del && BucketOf(data'[n]) in buckets - toDelete {
    }
    forall i, j | 0 <= i < j < |keep| ensures data'[keep[i]] != data'[keep[j]] {
      assert keep[i] in keep && keep[j] in keep;
    }
    forall x: nat | BucketOf(x) in buckets - toDelete
      ensures x in Stored(data', keep) <==> x in Elements(data)
    {
      if x in Elements(data) {
        var n :| 0 <= n < |data| && data[n] == x;
        assert n in keep;
        var i :| 0 <= i < |keep| && keep[i] == n;
        assert data'[keep[i]] == x;
      }
      if x in Stored(data', keep) {
        var i :| 0 <= i < |keep| && data'[keep[i]] == x;
        assert keep[i] in keep;
      }
    }
    forall x: nat | BucketOf(x) in toDelete ensures x in Stored(data, avail) {
      assert x == IndexOf(BucketOf(x), x % CHUNKS_IN_BUCKET);
    }
    if b :| b in toDelete {
      assert IndexOf(b, 0) in Elements(data);
      var n :| 0 <= n < |data| && data[n] == IndexOf(b, 0);
      assert n in del;
    }
  }

}
