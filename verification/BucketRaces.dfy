/** Two threads that delete hashes at the same time, with the allocator and the data buckets
    between them (decRefCnt of src/modules/filesystem/hash.cpp, post of bucketaccounting.cpp). */
module BucketRaces {
  import opened Wrappers
  import opened NodeLists
  import opened Pool
  import opened Chunks
  import opened Accounting
  import opened AccountingRuns
  import opened Buckets
  import opened BlockEvents
  import opened DataBuckets
  import opened DataBucketRuns

  /** The allocator after a post that finds room. */
  ghost function AfterPost(s: PoolState, index: nat): PoolState {
    PoolState(s.inUse - (if UsedUp(s) then WhollyFree(s) else {}), s.hint, s.held - {index})
  }

  /** post, with the buckets it released. */
  method PostBlock(a: BucketAccounting, index: nat) returns (released: set<nat>, ok: bool)
    requires a.Valid() && index in a.Outstanding()
    modifies a.Repr
    ensures ok <==> !Stuck(old(StateOf(a)))
    ensures ok ==> a.Valid() && StateOf(a) == AfterPost(old(StateOf(a)), index)
    ensures ok ==> released == (if UsedUp(old(StateOf(a))) then WhollyFree(old(StateOf(a))) else {})
  {
    hide PoolInv, Held, UsedUp, WhollyFree, Stuck, a.Shape, a.Releasable;
    RoomOfState(a);
    FreeInUse(StateOf(a));
    var inUse := a.bucketsInUse;
    ok := a.Post(index);
    released := inUse - a.bucketsInUse;
  }

  lemma FreeInUse(s: PoolState)
    ensures WhollyFree(s) <= s.inUse
  {
  }

  /** A bucket that is released has no block that is held. */
  lemma ReleasedApart(s: PoolState, live: map<nat, Entry>)
    requires live.Keys <= s.held
    ensures forall j :: j in live ==> BucketOf(j) !in WhollyFree(s)
  {
    forall j | j in live ensures BucketOf(j) !in WhollyFree(s) {
      assert j in Indices({BucketOf(j)});
    }
  }

  /** One thread deletes the hash of a block and, between its post and its mark, another deletes
      that of a second one. The next storeAllData aborts the process exactly when the first post
      left no node free and its bucket without anything held, so that the second post released it. */
  method DeleteTwo(d: DataBuckets, a: BucketAccounting, index: nat, other: nat, ghost live: map<nat, Entry>)
    returns (posted: bool, stored: bool)
    requires d.Valid() && Storable(d.view) && Shows(d.view, live) && a.Valid() && a.Repr !! d.whose.Keys
    requires index in live && other in live && index != other && live.Keys <= a.Outstanding()
    modifies d, d.whose.Keys, a.Repr
    ensures var s := old(StateOf(a));
            var t := AfterPost(s, index);
            && (posted <==> !Stuck(s) && !Stuck(t))
            && (posted ==> a.Valid() && StateOf(a) == AfterPost(t, other))
            && (posted ==> (stored <==> !(UsedUp(t) && BucketOf(index) in WhollyFree(t))))
  {
    hide d.Valid, a.Valid, a.Outstanding, Storable, Shows, UsedUp, WhollyFree, Stuck, Indices;
    stored := false;
    ghost var s, b := StateOf(a), BucketOf(index);
    ReleasedApart(s, live);
    d.PutBlock(index, None, ZERO_CHUNK);
    PutShows(old(d.view), d.view, live, index, None, ZERO_CHUNK);
    var released;
    released, posted := PostBlock(a, index);
    if !posted { return; }
    var removed := RemoveAll(d, released, live - {index});
    ghost var t := StateOf(a);
    assert b in d.view && d.view[b].inMemory;
    // the other thread
    ReleasedApart(t, live - {index});
    released, posted := PostBlock(a, other);
    if !posted { return; }
    var dropped := DropBlock(d, other, released, live - {index});
    // the first thread again
    stored := MarkAndStore(d, BucketOf(index));
  }

  // ---------- it can happen ----------

  /** The state in which it does: blocks 512 and 3072 hold a chunk each, the rest of bucket 2 and
      the buckets 3 to 11 fill the pool but for one node, and bucket 12 is held. */
  ghost predicate OneNodeLeft(s: PoolState) {
    s == PoolState(Unused({1}, 2, 13), 1, {512} + Indices({12}))
  }

  method RaceState(protocol: Protocol, buckets: set<nat>, first: Event, second: Event)
    returns (d: DataBuckets, a: BucketAccounting)
    requires Decrypts(protocol) && buckets == Unused({1}, 2, 13)
    requires first.Put? && Fits(first) && first.index == 512 && second.Put? && Fits(second) && second.index == 3072
    ensures d.Valid() && Storable(d.view) && Shows(d.view, After(After(map[], first), second))
    ensures a.Valid() && OneNodeLeft(StateOf(a)) && a.Repr !! d.whose.Keys
  {
    hide Storable, Shows, Fits, Decrypts, BucketAccounting.Valid, Indices, Elements, NoDup, Unused, StateOf;
    var turns := [Call(first), Call(second)];
    TwoPuts(turns, first, second);
    var chunks, ok;
    d, chunks, ok := DataBucketRuns.Run(protocol, turns);
    a := MountOneLeft(buckets);
  }

  lemma TwoPuts(turns: seq<Turn>, first: Event, second: Event)
    requires turns == [Call(first), Call(second)] && first.Put? && second.Put? && first.index != second.index
    ensures Legal(Calls(turns)) && Live(Calls(turns)) == After(After(map[], first), second)
  {
    hide Legal, Live, After;
    assert turns[..0] == [] && turns[..2] == turns;
    CallsNext(turns, 0);
    CallsNext(turns, 1);
    assert Calls(turns) == [first] + [second];
    TwoEvents(first, second);
  }

  lemma TwoEvents(first: Event, second: Event)
    requires first.Put? && second.Put? && first.index != second.index
    ensures Legal([first] + [second]) && Live([first] + [second]) == After(After(map[], first), second)
  {
    NoEvents();
    hide Legal, Live;
    Push([], first);
    assert [] + [first] == [first];
    Push([first], second);
  }

  lemma NoEvents()
    ensures Legal([]) && Live([]) == map[]
  {
  }

  method MountOneLeft(buckets: set<nat>) returns (a: BucketAccounting)
    requires buckets == Unused({1}, 2, 13)
    ensures fresh(a.Repr) && a.Valid() && OneNodeLeft(StateOf(a))
  {
    hide PoolInv, Held, Indices, Elements, NoDup, Unused, a.Shape;
    var postList := seq(RECORDS - 1, i requires 0 <= i => 513 + i);
    AllButOne(buckets, postList);
    var ok;
    a, ok := LoadBuckets(buckets, postList);
  }

  lemma AllButOne(buckets: set<nat>, postList: seq<nat>)
    requires buckets == Unused({1}, 2, 13)
    requires |postList| == RECORDS - 1 && forall i :: 0 <= i < |postList| ==> postList[i] == 513 + i
    ensures 0 !in buckets && NoDup(postList) && forall i :: 0 <= i < |postList| ==> BucketOf(postList[i]) in buckets
    ensures Indices(buckets) - Elements(postList) == {512} + Indices({12})
  {
    forall x | x in Indices(buckets) && 512 < x && BucketOf(x) != 12 ensures x in Elements(postList) {
      assert postList[x - 513] == x;
    }
  }

  /** There both posts find room, and the second one releases the bucket of the first. */
  lemma RaceAborts(s: PoolState)
    requires OneNodeLeft(s)
    ensures !Stuck(s) && !Stuck(AfterPost(s, 512))
    ensures UsedUp(AfterPost(s, 512)) && BucketOf(512) in WhollyFree(AfterPost(s, 512))
  {
    hide Indices, Unused;
    var full := PoolState(s.inUse, 1, Indices({12}));
    TenReleased(s.inUse, full);
    NotAllPosted(s, full);
    assert s.held - {512} == full.held;
    assert AfterPost(s, 512) == full;
    assert BucketOf(512) == 2;
  }

  lemma NotAllPosted(s: PoolState, full: PoolState)
    requires OneNodeLeft(s) && full == PoolState(s.inUse, 1, Indices({12})) && UsedUp(full)
    ensures !UsedUp(s) && 512 !in Indices({12})
  {
    hide Indices;
    assert 512 in Indices(s.inUse) && 512 !in Indices({12});
    assert Indices(s.inUse) - full.held == (Indices(s.inUse) - s.held) + {512};
  }
}
