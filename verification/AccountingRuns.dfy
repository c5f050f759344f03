/** Runs of the block allocator, and the bucket numbers they create
    (src/modules/filesystem/bucketaccounting.cpp). */
module AccountingRuns {
  import opened NodeLists
  import opened Pool
  import opened Accounting

  // ---------- the allocator as a value ----------

  /** The buckets in use, where the search for new numbers starts, and the indices held. */
  datatype PoolState = PoolState(inUse: set<nat>, hint: nat, held: set<nat>)

  ghost function StateOf(a: BucketAccounting): PoolState
    requires a.Valid()
    reads a, a.data, a.links, a.availableList, a.freeList
  {
    PoolState(a.bucketsInUse, a.hint, a.Outstanding())
  }

  /** No node is free: 2560 indices are in the pool. */
  ghost predicate UsedUp(s: PoolState) {
    |Indices(s.inUse) - s.held| == RECORDS
  }

  /** The buckets nobody holds an index of. */
  ghost function WhollyFree(s: PoolState): set<nat> {
    set b | b in s.inUse && Indices({b}) !! s.held
  }

  /** The next post aborts the process. */
  ghost predicate Stuck(s: PoolState) {
    UsedUp(s) && WhollyFree(s) == {}
  }

  /** A post of an index that nobody holds is not made. */
  datatype Call = Fetched(index: nat) | Posted(index: nat) | Skipped(index: nat)

  ghost predicate Steps(s: PoolState, c: Call, t: PoolState) {
    match c
    case Fetched(i) =>
      && i != 0 && i !in s.held && BucketOf(i) in t.inUse && t.held == s.held + {i}
      && if s.held == Indices(s.inUse) then CreatedFrom(s.inUse, s.hint, t.inUse, t.hint)
         else t.inUse == s.inUse && t.hint == s.hint
    case Posted(i) =>
      && i in s.held && !Stuck(s) && t.held == s.held - {i} && t.hint == s.hint
      && t.inUse == s.inUse - (if UsedUp(s) then WhollyFree(s) else {})
    case Skipped(i) => i !in s.held && t == s
  }

  ghost predicate Trace(states: seq<PoolState>, log: seq<Call>) {
    |states| == |log| + 1 && forall n :: 0 <= n < |log| ==> Steps(states[n], log[n], states[n + 1])
  }

  lemma TracePush(states: seq<PoolState>, log: seq<Call>, c: Call, t: PoolState)
    requires Trace(states, log) && Steps(states[|log|], c, t)
    ensures Trace(states + [t], log + [c])
  {
    hide Steps;
  }

  // ---------- what every run keeps ----------

  /** Who holds what is a matter of the calls alone. */
  ghost function HeldAfter(held: set<nat>, log: seq<Call>): set<nat> {
    if log == [] then held
    else
      var before := HeldAfter(held, log[..|log| - 1]);
      match log[|log| - 1]
      case Fetched(i) => before + {i}
      case Posted(i) => before - {i}
      case Skipped(_) => before
  }

  lemma {:induction false} HeldIsLogged(states: seq<PoolState>, log: seq<Call>, n: nat)
    requires Trace(states, log) && n <= |log|
    ensures states[n].held == HeldAfter(states[0].held, log[..n])
  {
    if n > 0 {
      HeldIsLogged(states, log, n - 1);
      assert log[..n][..n - 1] == log[..n - 1];
      assert Steps(states[n - 1], log[n - 1], states[n]);
    }
  }

  lemma {:induction false} HintGrows(states: seq<PoolState>, log: seq<Call>, i: nat, j: nat)
    requires Trace(states, log) && i <= j <= |log|
    ensures states[i].hint <= states[j].hint
  {
    if i < j {
      HintGrows(states, log, i, j - 1);
      assert Steps(states[j - 1], log[j - 1], states[j]);
    }
  }

  /** The bucket numbers that call n creates. */
  ghost function CreatedAt(states: seq<PoolState>, n: nat): set<nat>
    requires n + 1 < |states|
  {
    states[n + 1].inUse - states[n].inUse
  }

  /** Call n creates number b exactly when it is a fetch from an empty pool and b is, from the
      hint on, among the ten least numbers that are not in use. */
  lemma CreatedExactly(states: seq<PoolState>, log: seq<Call>, n: nat, b: nat)
    requires Trace(states, log) && n < |log|
    ensures var s := states[n];
            b in CreatedAt(states, n) <==>
              && log[n].Fetched? && s.held == Indices(s.inUse)
              && b !in s.inUse && s.hint <= b && |Unused(s.inUse, s.hint, b)| < MAX_BUCKETS
  {
    var s, t := states[n], states[n + 1];
    assert Steps(s, log[n], t);
    if log[n].Fetched? && s.held == Indices(s.inUse) && b !in s.inUse {
      ReturnsExactly(s.inUse, s.hint, t.inUse, t.hint, b);
    }
  }

  lemma CreatedRange(states: seq<PoolState>, log: seq<Call>, n: nat)
    requires Trace(states, log) && n < |log|
    ensures forall b :: b in CreatedAt(states, n) ==> states[n].hint <= b < states[n + 1].hint
  {
    assert Steps(states[n], log[n], states[n + 1]);
  }

  /** No bucket number is created twice. */
  lemma NoNumberTwice(states: seq<PoolState>, log: seq<Call>, i: nat, j: nat)
    requires Trace(states, log) && i < j < |log|
    ensures CreatedAt(states, i) !! CreatedAt(states, j)
  {
    hide Steps, CreatedAt;
    CreatedRange(states, log, i);
    CreatedRange(states, log, j);
    HintGrows(states, log, i + 1, j);
    BelowAndAbove(CreatedAt(states, i), CreatedAt(states, j), states[i + 1].hint, states[j].hint);
  }

  lemma BelowAndAbove(below: set<nat>, above: set<nat>, m: nat, n: nat)
    requires m <= n && (forall b :: b in below ==> b < m) && forall b :: b in above ==> n <= b
    ensures below !! above
  {
  }

  /** A number that comes back was in use before the first call. */
  lemma {:induction false} OnlyFirstNumbersReturn(states: seq<PoolState>, log: seq<Call>, i: nat, j: nat)
    requires Trace(states, log) && i <= j < |log|
    ensures states[i].inUse * CreatedAt(states, j) <= states[0].inUse
  {
    if i > 0 {
      OnlyFirstNumbersReturn(states, log, i - 1, j);
      NoNumberTwice(states, log, i - 1, j);
      assert states[i].inUse <= states[i - 1].inUse + CreatedAt(states, i - 1);
    }
  }

  /** As long as an index is held and not posted, its bucket stays in use, and its number does not
      come back. */
  lemma {:induction false} HeldNumberStays(states: seq<PoolState>, log: seq<Call>, x: nat, n: nat)
    requires Trace(states, log) && n <= |log| && Posted(x) !in log
    requires x in states[0].held && BucketOf(x) in states[0].inUse
    ensures x in states[n].held && BucketOf(x) in states[n].inUse
  {
    if n > 0 {
      HeldNumberStays(states, log, x, n - 1);
      assert Steps(states[n - 1], log[n - 1], states[n]);
      assert x in Indices({BucketOf(x)});
    }
  }

  /** A released number returns at the next creation exactly when it is not below the hint and
      among the numbers chosen, which are the ten least ones. */
  lemma ReturnsExactly(inUse: set<nat>, first: nat, after: set<nat>, hint: nat, b: nat)
    requires CreatedFrom(inUse, first, after, hint) && b !in inUse
    ensures b in after <==> first <= b && |Unused(inUse, first, b)| < MAX_BUCKETS
  {
    if first <= b < hint {
      assert Unused(inUse, first, hint) >= Unused(inUse, first, b) + {b};
      SubsetSize(Unused(inUse, first, b) + {b}, Unused(inUse, first, hint));
    } else if b >= hint {
      SubsetSize(Unused(inUse, first, hint), Unused(inUse, first, b));
    }
  }

  // ---------- the allocator makes such runs ----------

  datatype PoolOp = Fetch | Post(index: nat)

  /** What a call makes of an operation. */
  predicate Answers(op: PoolOp, c: Call) {
    match op
    case Fetch => c.Fetched?
    case Post(i) => c == Posted(i) || c == Skipped(i)
  }

  /** From any state of the allocator, any run of fetches and posts goes through states that follow
      from each other as the calls say, and ends early exactly at a post that finds neither a free
      node nor a wholly free bucket, for which it takes more than ten buckets. */
  method Session(a: BucketAccounting, ops: seq<PoolOp>, held: set<nat>)
    returns (log: seq<Call>, ok: bool, ghost states: seq<PoolState>)
    requires a.Valid() && held == a.Outstanding()
    modifies a.Repr
    ensures Trace(states, log) && states[0] == old(StateOf(a))
    ensures |log| <= |ops| && forall n :: 0 <= n < |log| ==> Answers(ops[n], log[n])
    ensures ok ==> |log| == |ops| && a.Valid() && StateOf(a) == states[|log|]
    ensures !ok ==> |log| < |ops| && ops[|log|].Post? && ops[|log|].index in states[|log|].held
    ensures !ok ==> Stuck(states[|log|]) && |states[|log|].inUse| > MAX_BUCKETS
  {
    hide a.Valid, a.Outstanding, Steps, Stuck;
    var now := held;
    log, ok, states := [], true, [StateOf(a)];
    NoCalls(states);
    for n := 0 to |ops|
      invariant ok && a.Valid() && now == StateOf(a).held && |log| == n
      invariant Trace(states, log) && states[0] == old(StateOf(a)) && StateOf(a) == states[n]
      invariant forall m :: 0 <= m < n ==> Answers(ops[m], log[m])
    {
      var call;
      call, now, ok := Make(a, ops[n], now);
      if !ok {
        return;
      }
      TracePush(states, log, call, StateOf(a));
      log, states := log + [call], states + [StateOf(a)];
    }
  }

  lemma NoCalls(states: seq<PoolState>)
    requires |states| == 1
    ensures Trace(states, [])
  {
  }

  /** One operation; `held` follows the indices that are held. */
  method Make(a: BucketAccounting, op: PoolOp, held: set<nat>) returns (call: Call, held': set<nat>, ok: bool)
    requires a.Valid() && held == a.Outstanding()
    modifies a.Repr
    ensures ok ==> a.Valid() && held' == a.Outstanding()
    ensures ok ==> Answers(op, call) && Steps(old(StateOf(a)), call, StateOf(a))
    ensures !ok ==> op.Post? && op.index in held && Stuck(old(StateOf(a))) && |old(a.bucketsInUse)| > MAX_BUCKETS
  {
    hide PoolInv, Held, Indices, CreatedFrom, UsedUp, WhollyFree, a.Shape, a.Releasable;
    ghost var s := StateOf(a);
    match op
    case Fetch =>
      var index := a.Fetch();
      call, held', ok := Fetched(index), held + {index}, true;
    case Post(index) =>
      if index in held {
        RoomOfState(a);
        ok := a.Post(index);
        call, held' := Posted(index), held - {index};
      } else {
        call, held', ok := Skipped(index), held, true;
      }
  }

  /** What post looks at, in terms of the indices held. */
  lemma RoomOfState(a: BucketAccounting)
    requires a.Valid()
    ensures a.freeList.nodes == [] <==> UsedUp(StateOf(a))
    ensures a.Releasable() == WhollyFree(StateOf(a))
    ensures a.HasRoom() <==> !Stuck(StateOf(a))
  {
    hide Indices, Full;
    StoredSize(a.data[..], a.availableList.nodes, a.freeList.nodes, a.bucketsInUse);
    FreeBuckets(a.Available(), a.bucketsInUse, a.Outstanding());
  }

  lemma FreeBuckets(pool: set<nat>, buckets: set<nat>, held: set<nat>)
    requires pool == Indices(buckets) - held
    ensures FullBuckets(pool, buckets) == set b | b in buckets && Indices({b}) !! held
  {
    forall b | b in buckets ensures Full(pool, b) <==> Indices({b}) !! held {
      if Full(pool, b) {
        forall x | x in Indices({b}) ensures x !in held {
          assert x == IndexOf(b, x % CHUNKS_IN_BUCKET);
        }
      } else {
        var k :| 0 <= k < CHUNKS_IN_BUCKET && IndexOf(b, k) !in pool;
        assert IndexOf(b, k) in Indices({b});
      }
    }
  }

  // ---------- a new file system ----------

  /** On a new file system, whose zero hash keeps index 0 of bucket 1, no bucket number that was
      ever in use is created again. */
  method FromMkfs(ops: seq<PoolOp>) returns (a: BucketAccounting, log: seq<Call>, ok: bool, ghost states: seq<PoolState>)
    requires Post(IndexOf(1, 0)) !in ops
    ensures Trace(states, log) && states[0] == PoolState({1}, 1, {IndexOf(1, 0)})
    ensures |log| <= |ops| && forall n :: 0 <= n < |log| ==> Answers(ops[n], log[n])
    ensures ok ==> |log| == |ops| && a.Valid() && StateOf(a) == states[|log|]
    ensures !ok ==> |log| < |ops| && ops[|log|].Post? && Stuck(states[|log|])
    ensures forall i, j :: 0 <= i <= j < |log| ==> states[i].inUse !! CreatedAt(states, j)
  {
    hide PoolInv, Held, Elements, NoDup, Reserved, Steps, Stuck, CreatedAt, BucketAccounting.Shape;
    var unused := UnusedOfFirstBucket(1);
    a, ok := LoadBuckets({1}, unused);
    assert Reserved(1) == {IndexOf(1, 0)};
    log, ok, states := Session(a, ops, {IndexOf(1, 0)});
    NeverPosted(ops, log, IndexOf(1, 0));
    forall i, j | 0 <= i <= j < |log| ensures states[i].inUse !! CreatedAt(states, j) {
      NoReturn(states, log, i, j);
    }
  }

  lemma NeverPosted(ops: seq<PoolOp>, log: seq<Call>, x: nat)
    requires |log| <= |ops| && (forall n :: 0 <= n < |log| ==> Answers(ops[n], log[n])) && Post(x) !in ops
    ensures Posted(x) !in log
  {
    forall n | 0 <= n < |log| ensures log[n] != Posted(x) {
      assert ops[n] in ops;
    }
  }

  lemma NoReturn(states: seq<PoolState>, log: seq<Call>, i: nat, j: nat)
    requires Trace(states, log) && i <= j < |log| && Posted(IndexOf(1, 0)) !in log
    requires states[0] == PoolState({1}, 1, {IndexOf(1, 0)})
    ensures states[i].inUse !! CreatedAt(states, j)
  {
    OnlyFirstNumbersReturn(states, log, i, j);
    assert BucketOf(IndexOf(1, 0)) == 1;
    HeldNumberStays(states, log, IndexOf(1, 0), j);
    NoneOf(states[i].inUse, CreatedAt(states, j));
  }

  lemma NoneOf(a: set<nat>, b: set<nat>)
    requires a * b <= {1} && 1 !in b
    ensures a !! b
  {
    assert forall x :: x in a && x in b <==> x in a * b;
  }

  // ---------- a mounted image ----------

  /** A mounted image of the buckets 2 to 12, of which only the last holds anything: the others
      fill the pool. */
  method MountTenFree(buckets: set<nat>) returns (a: BucketAccounting)
    requires buckets == Unused({1}, 2, 13)
    ensures fresh(a.Repr) && a.Valid() && StateOf(a) == PoolState(buckets, 1, Indices({12}))
  {
    hide PoolInv, Held, Indices, Elements, NoDup, Unused, a.Shape;
    var postList := WholeBuckets(buckets);
    var ok;
    a, ok := LoadBuckets(buckets, postList);
    TenPosted(buckets, Elements(postList));
  }

  /** One post and two fetches later, bucket 2 was released and its number is in use again. */
  method NumbersReturn(buckets: set<nat>) returns (a: BucketAccounting, log: seq<Call>, ghost states: seq<PoolState>)
    requires buckets == Unused({1}, 2, 13)
    ensures Trace(states, log) && states[0] == PoolState(buckets, 1, Indices({12}))
    ensures |log| == 3 && log[0] == Posted(IndexOf(12, 0)) && log[1].Fetched? && log[2].Fetched?
    ensures 2 in states[0].inUse && 2 !in states[1].inUse && 2 in CreatedAt(states, 2)
    ensures a.Valid() && StateOf(a) == states[3]
  {
    hide PoolInv, Held, Indices, Unused, Steps, Stuck, CreatedAt, BucketAccounting.Shape;
    a := MountTenFree(buckets);
    var held := set k | 0 <= k < CHUNKS_IN_BUCKET :: IndexOf(12, k);
    WholeBucket(held);
    var ok;
    log, ok, states := Session(a, [Post(IndexOf(12, 0)), Fetch, Fetch], held);
    TenReleased(buckets, states[0]);
    hide StateOf, a.Valid;
    assert Steps(states[0], log[0], states[1]) && Steps(states[1], log[1], states[2]);
    assert Answers(Post(IndexOf(12, 0)), log[0]);
    NotSkipped(states[0], log[0], states[1]);
    OneLeft(states[0], log[0], states[1], log[1], states[2]);
    TwoIsTaken(states, log);
  }

  lemma WholeBucket(held: set<nat>)
    requires held == set k | 0 <= k < CHUNKS_IN_BUCKET :: IndexOf(12, k)
    ensures held == Indices({12}) && IndexOf(12, 0) in held
  {
    forall x | x in Indices({12}) ensures x in held {
      assert x == IndexOf(12, x % CHUNKS_IN_BUCKET);
    }
    assert IndexOf(12, 0) in held;
  }

  /** All ten are wholly free, and no node is free. */
  lemma TenReleased(buckets: set<nat>, s: PoolState)
    requires buckets == Unused({1}, 2, 13) && s == PoolState(buckets, 1, Indices({12}))
    ensures UsedUp(s) && WhollyFree(s) == buckets - {12} && 2 in buckets - {12} && 12 in buckets && !Stuck(s)
  {
    var posts := seq(RECORDS, i requires 0 <= i => 512 + i);
    WholeFacts(posts);
    NoDupSize(posts);
    TenPosted(buckets, Elements(posts));
    assert 2 in buckets;
    OthersFree(buckets, s);
    hide Indices, Elements, NoDup, Unused;
    assert 2 in WhollyFree(s);
  }

  lemma OthersFree(buckets: set<nat>, s: PoolState)
    requires 12 in buckets && s.inUse == buckets && s.held == Indices({12})
    ensures WhollyFree(s) == buckets - {12}
  {
    hide Indices;
    forall b | b in buckets ensures b == 12 <==> !(Indices({b}) !! s.held) {
      if b == 12 { assert IndexOf(b, 0) in Indices({b}); }
    }
  }

  lemma NotSkipped(s: PoolState, c: Call, t: PoolState)
    requires Steps(s, c, t) && c.index in s.held
    ensures !c.Skipped?
  {
  }

  /** The first fetch takes the index just posted, the only one in the pool. */
  lemma OneLeft(s: PoolState, c: Call, t: PoolState, d: Call, u: PoolState)
    requires s.held == Indices({12}) && 12 in s.inUse && UsedUp(s) && WhollyFree(s) == s.inUse - {12} && s.hint == 1
    requires Steps(s, c, t) && c == Posted(IndexOf(12, 0)) && Steps(t, d, u) && d.Fetched?
    ensures t.inUse == {12} && u == PoolState({12}, 1, Indices({12}))
  {
    assert t.inUse == {12};
    assert IndexOf(12, 0) in Indices({12}) && IndexOf(12, 0) !in t.held;
    assert d.index == IndexOf(12, 0) by { if d.index in Indices({12}) { assert d.index in s.held; } }
  }

  lemma TwoIsTaken(states: seq<PoolState>, log: seq<Call>)
    requires Trace(states, log) && |log| == 3 && log[2].Fetched? && states[2] == PoolState({12}, 1, Indices({12}))
    ensures 2 in CreatedAt(states, 2)
  {
    CreatedExactly(states, log, 2, 2);
    assert Unused({12}, 1, 2) == {1};
  }

  method WholeBuckets(ghost buckets: set<nat>) returns (postList: seq<nat>)
    requires buckets == Unused({1}, 2, 13)
    ensures 0 !in buckets && |postList| == RECORDS && NoDup(postList)
    ensures Elements(postList) == Indices(Unused({1, 12}, 2, 12))
    ensures forall i :: 0 <= i < |postList| ==> BucketOf(postList[i]) in buckets
  {
    postList := seq(RECORDS, i requires 0 <= i => 512 + i);
    WholeFacts(postList);
  }

  lemma WholeFacts(postList: seq<nat>)
    requires |postList| == RECORDS && forall i :: 0 <= i < RECORDS ==> postList[i] == 512 + i
    ensures NoDup(postList) && Elements(postList) == Indices(Unused({1, 12}, 2, 12))
  {
    forall x | x in Indices(Unused({1, 12}, 2, 12)) ensures x in Elements(postList) {
      assert postList[x - 512] == x;
    }
  }

  lemma TenPosted(inUse: set<nat>, posted: set<nat>)
    requires inUse == Unused({1}, 2, 13) && posted == Indices(Unused({1, 12}, 2, 12))
    ensures Indices(inUse) - posted == Indices({12}) && posted == Indices(inUse) - Indices({12}) && 12 in inUse
  {
  }
}
