/** The block allocator of src/modules/filesystem/bucketaccounting.cpp.

    2560 nodes live on two intrusive lists: the available list, whose nodes carry the
    indices that may be handed out, and the free list of empty nodes.  A bucket index
    that belongs to a bucket in use but is not available is outstanding: somebody
    fetched it and has not posted it back. */
module Accounting {
  import opened NodeLists
  import opened Pool

  /** The bucket numbers from `first` up to `hint` that were not in use. */
  ghost function Unused(inUse: set<nat>, first: nat, hint: nat): set<nat> {
    set b | first <= b < hint && b !in inUse
  }

  /** createBuckets takes the ten least numbers from its hint on that are not in use. */
  ghost predicate CreatedFrom(inUse: set<nat>, first: nat, after: set<nat>, hint: nat) {
    && first < hint && after == inUse + Unused(inUse, first, hint)
    && |Unused(inUse, first, hint)| == MAX_BUCKETS
  }

  class BucketAccounting {
    const data: array<nat>           // _records[i].data
    const links: array<int>          // _records[i].nextNode
    const availableList: NodeList
    const freeList: NodeList
    var hint: nat
    var bucketsInUse: set<nat>

    ghost const Repr: set<object> := {this, data, links, availableList, freeList}

    ghost predicate Shape()
      reads this, data, links, availableList, freeList
    {
      && data.Length == links.Length == RECORDS && (data as object) != links
      && availableList != freeList
      && availableList.Valid(links) && freeList.Valid(links)
    }

    ghost predicate Valid()
      reads this, data, links, availableList, freeList
    {
      && Shape()
      && PoolInv(data[..], availableList.nodes, freeList.nodes, bucketsInUse)
      && hint >= 1
    }

    /** The indices in the pool. */
    ghost function Available(): set<nat>
      requires Shape()
      reads this, data, links, availableList, freeList
    {
      Stored(data[..], availableList.nodes)
    }

    /** The indices somebody holds. */
    ghost function Outstanding(): set<nat>
      requires Shape()
      reads this, data, links, availableList, freeList
    {
      Held(data[..], availableList.nodes, bucketsInUse)
    }

    /** The buckets nobody holds an index of. */
    ghost function Releasable(): set<nat>
      requires Shape()
      reads this, data, links, availableList, freeList
    {
      FullBuckets(Available(), bucketsInUse)
    }

    /** A post finds room: a node is free, or a whole bucket can be released. */
    ghost predicate HasRoom()
      requires Shape()
      reads this, data, links, availableList, freeList
    {
      freeList.nodes != [] || Releasable() != {}
    }

    /** The constructor takes the buckets that already exist; all their indices count as
        outstanding until loadBuckets posts the unused ones. */
    constructor (buckets: set<nat>)
      requires 0 !in buckets
      ensures Valid()
      ensures fresh(this) && fresh(data) && fresh(links) && fresh(availableList) && fresh(freeList)
      ensures bucketsInUse == buckets && Outstanding() == Indices(buckets) && hint == 1
    {
      hint := 1;
      bucketsInUse := buckets;
      availableList := new NodeList();
      freeList := new NodeList();
      data := new nat[RECORDS](_ => 0);
      links := new int[RECORDS](_ => NULL);
      new;
      CleanRecords(freeList);
      EmptyPool(data[..], freeList.nodes, bucketsInUse);
    }

    /** cleanRecords: chain all nodes in order; `list` becomes that chain. */
    method CleanRecords(list: NodeList)
      requires links.Length == RECORDS
      modifies links, list
      ensures list.Valid(links) && list.nodes == InOrder(RECORDS)
    {
      links[0] := NULL;
      for a := 1 to RECORDS
        invariant forall k :: 0 <= k < a - 1 ==> links[k] == k + 1
        invariant links[a - 1] == NULL
      {
        links[a - 1] := a;
        links[a] := NULL;
      }
      list.head := 0;
      list.nodes := InOrder(RECORDS);
    }

    /** fetch: take an index out of the pool, creating ten buckets when it is empty. */
    method Fetch() returns (index: nat)
      requires Valid()
      modifies this, data, links, availableList, freeList
      ensures Valid()
      ensures index != 0 && index !in old(Outstanding())
      ensures Outstanding() == old(Outstanding()) + {index}
      ensures old(bucketsInUse) <= bucketsInUse
      ensures BucketOf(index) in bucketsInUse
      ensures bucketsInUse != old(bucketsInUse) ==> BucketOf(index) !in old(bucketsInUse)
      ensures if old(Outstanding()) == Indices(old(bucketsInUse))
              then CreatedFrom(old(bucketsInUse), old(hint), bucketsInUse, hint)
              else bucketsInUse == old(bucketsInUse) && hint == old(hint)
    {
      while true
        invariant Valid() && Outstanding() == old(Outstanding())
        invariant if bucketsInUse == old(bucketsInUse) then hint == old(hint)
                  else old(Outstanding()) == Indices(old(bucketsInUse))
                       && availableList.nodes != [] && CreatedFrom(old(bucketsInUse), old(hint), bucketsInUse, hint)
        decreases availableList.nodes == []
      {
        if availableList.head != NULL {
          index := FetchNode();
          break;
        } else if freeList.head != NULL {
          NothingStored(data[..], bucketsInUse);
          CreateBuckets();
        }
      }
    }

    lemma InUse(index: nat)
      requires Valid() && index in Outstanding()
      ensures BucketOf(index) in bucketsInUse
    {
    }

    /** The branch of fetch that finds a node: empty it and move it to the free list. */
    method FetchNode() returns (index: nat)
      requires Valid() && availableList.nodes != []
      modifies this, data, links, availableList, freeList
      ensures Valid() && bucketsInUse == old(bucketsInUse) && hint == old(hint)
      ensures index != 0 && index !in old(Outstanding()) && BucketOf(index) in bucketsInUse
      ensures Outstanding() == old(Outstanding()) + {index}
    {
      ghost var d, avail, free := data[..], availableList.nodes, freeList.nodes;
      TakeOne(d, avail, free, bucketsInUse);
      var node := availableList.Take(links);
      assert node in avail && node !in free && node !in avail[1..];
      index := data[node];
      data[node] := 0;
      Push(node, freeList, availableList);
      assert data[..] == d[node := 0];
      assert freeList.nodes == [node] + free && availableList.nodes == avail[1..];
    }

    /** insertIntoList, for a node that is on neither list. */
    method Push(node: int, list: NodeList, other: NodeList)
      requires list != other && list.Valid(links) && other.Valid(links)
      requires 0 <= node < links.Length && node !in list.nodes && node !in other.nodes
      modifies links, list
      ensures list.Valid(links) && list.nodes == [node] + old(list.nodes)
      ensures other.Valid(links)
    {
      ghost var before := links[..];
      list.Insert(node, links);
      ListFrame(before, links[..], other.head, other.nodes);
    }

    /** createBuckets: refill the empty pool with ten new buckets. */
    method CreateBuckets()
      requires Valid() && availableList.nodes == []
      modifies this, data, links, availableList, freeList
      ensures Valid() && Outstanding() == old(Outstanding())
      ensures availableList.nodes != []
      ensures CreatedFrom(old(bucketsInUse), old(hint), bucketsInUse, hint)
    {
      hide CreatedFrom, Unused, NewBuckets, FilledBy, Indices, Elements;
      NothingStored(data[..], bucketsInUse);
      ghost var created := AddBuckets();
      ghost var d := data[..];
      RefilledPool(d, created, old(bucketsInUse));
      hide PoolInv, Held, Stored, NewBuckets, FilledBy, Elements, InRange;
      CleanRecords(availableList);
      freeList.head := NULL;
      freeList.nodes := [];
      assert data[..] == d;
    }

    /** The loop of createBuckets: number ten new buckets and fill the records with their
        indices. */
    method AddBuckets() returns (ghost created: seq<nat>)
      requires data.Length == RECORDS && hint >= 1
      modifies this, data
      ensures |created| == MAX_BUCKETS && NewBuckets(created, old(bucketsInUse)) && hint >= 1
      ensures bucketsInUse == old(bucketsInUse) + Elements(created)
      ensures FilledBy(data[..], created)
      ensures CreatedFrom(old(bucketsInUse), old(hint), bucketsInUse, hint)
    {
      var recId := 0;
      created := [];
      for a := 0 to MAX_BUCKETS
        invariant recId == a * CHUNKS_IN_BUCKET
        invariant |created| == a && hint >= 1
        invariant NewBuckets(created, old(bucketsInUse))
        invariant bucketsInUse == old(bucketsInUse) + Elements(created)
        invariant NoDup(created) && hint >= old(hint) && Elements(created) == Unused(old(bucketsInUse), old(hint), hint)
        invariant FilledBy(data[..], created)
      {
        hide FilledBy, NewBuckets, Elements, NoDup, Unused;
        ghost var from := hint;
        SkipUsedHints();
        UnusedNext(old(bucketsInUse), old(hint), from, hint, created);
        var myBucketId := hint;
        NewBucketNext(created, old(bucketsInUse), myBucketId);
        bucketsInUse := bucketsInUse + {myBucketId};
        hint := hint + 1;
        ghost var d := data[..];
        FillBucket(recId, myBucketId);
        FilledNext(d, data[..], created, myBucketId);
        created := created + [myBucketId];
        recId := recId + CHUNKS_IN_BUCKET;
      }
      NoDupSize(created);
    }

    /** The inner search of createBuckets for an unused bucket number. */
    method SkipUsedHints()
      modifies `hint
      ensures hint >= old(hint) && hint !in bucketsInUse
      ensures forall b :: old(hint) <= b < hint ==> b in bucketsInUse
    {
      while hint in bucketsInUse
        invariant hint >= old(hint)
        invariant forall b :: old(hint) <= b < hint ==> b in bucketsInUse
        decreases set b: nat | b in bucketsInUse && b >= hint
      {
        ghost var above := set b: nat | b in bucketsInUse && b >= hint;
        hint := hint + 1;
        assert (set b: nat | b in bucketsInUse && b >= hint) == above - {hint - 1};
      }
    }

    method FillBucket(recId: nat, bucket: nat)
      requires recId + CHUNKS_IN_BUCKET <= data.Length
      modifies data
      ensures forall k :: recId <= k < recId + CHUNKS_IN_BUCKET ==> data[k] == IndexOf(bucket, k - recId)
      ensures forall k :: 0 <= k < data.Length && !(recId <= k < recId + CHUNKS_IN_BUCKET) ==> data[k] == old(data[k])
    {
      for b := 0 to CHUNKS_IN_BUCKET
        invariant forall k :: recId <= k < recId + b ==> data[k] == IndexOf(bucket, k - recId)
        invariant forall k :: 0 <= k < data.Length && !(recId <= k < recId + b) ==> data[k] == old(data[k])
      {
        data[recId + b] := IndexOf(bucket, b);
      }
    }

    /** post: put an outstanding index back, releasing wholly free buckets when no node is
        free.  The result is false when the assertion "If we find nothing to delete we
        crash due to fragmentation" aborts the process. */
    method Post(index: nat) returns (ok: bool)
      requires Valid() && index in Outstanding()
      modifies this, data, links, availableList, freeList
      ensures ok <==> old(HasRoom())
      ensures ok ==> Valid() && Outstanding() == old(Outstanding()) - {index}
      ensures ok ==> bucketsInUse == old(bucketsInUse) - (if old(freeList.nodes) == [] then old(Releasable()) else {})
      ensures ok ==> BucketOf(index) in bucketsInUse && hint == old(hint)
      ensures !ok ==> bucketsInUse == old(bucketsInUse) && |bucketsInUse| > MAX_BUCKETS
    {
      ghost var room, held := HasRoom(), Outstanding();
      while true
        invariant Valid() && Outstanding() == held && hint == old(hint)
        invariant freeList.nodes != [] ==> room
        invariant freeList.nodes != [] ==>
                    bucketsInUse == old(bucketsInUse) - (if old(freeList.nodes) == [] then old(Releasable()) else {})
        invariant freeList.nodes == [] ==>
                    old(freeList.nodes) == [] && (Releasable() != {} <==> room)
                    && Releasable() == old(Releasable()) && bucketsInUse == old(bucketsInUse)
        decreases freeList.nodes == []
      {
        if freeList.head != NULL {
          InUse(index);
          PostNode(index);
          return true;
        } else if availableList.head != NULL {
          ok := ReleaseBuckets();
          if !ok {
            return;
          }
        }
      }
    }

    /** The branch of post that finds a node: fill it and move it to the available list. */
    method PostNode(index: nat)
      requires Valid() && freeList.nodes != [] && index in Outstanding()
      modifies this, data, links, availableList, freeList
      ensures Valid() && Outstanding() == old(Outstanding()) - {index}
      ensures bucketsInUse == old(bucketsInUse) && hint == old(hint)
    {
      ghost var d, avail, free := data[..], availableList.nodes, freeList.nodes;
      GiveOne(d, avail, free, bucketsInUse, index);
      var node := freeList.Take(links);
      assert node in free && node !in avail && node !in free[1..];
      data[node] := index;
      Push(node, availableList, freeList);
      assert data[..] == d[node := index];
      assert availableList.nodes == [node] + avail && freeList.nodes == free[1..];
    }

    /** releaseBuckets: give up every bucket whose 256 indices are all in the pool.  The
        result is false when there is none. */
    method ReleaseBuckets() returns (ok: bool)
      requires Valid() && freeList.nodes == []
      modifies this, data, links, availableList, freeList
      ensures ok <==> old(Releasable()) != {}
      ensures ok ==> Valid() && Outstanding() == old(Outstanding()) && freeList.nodes != []
      ensures ok ==> bucketsInUse == old(bucketsInUse) - old(Releasable()) && hint == old(hint)
      ensures !ok ==> bucketsInUse == old(bucketsInUse) && |bucketsInUse| > MAX_BUCKETS
    {
      AllAvailable(data[..], availableList.nodes, bucketsInUse);
      var toDelete := FindReleasable();
      if toDelete == {} {
        return false;
      }
      Release(toDelete);
      ok := true;
    }

    /** The relinking part of releaseBuckets. */
    method Release(toDelete: set<nat>)
      requires Valid() && freeList.nodes == []
      requires toDelete == Releasable() != {}
      modifies this, data, links, availableList, freeList
      ensures Valid() && Outstanding() == old(Outstanding()) && freeList.nodes != []
      ensures bucketsInUse == old(bucketsInUse) - toDelete && hint == old(hint)
    {
      ghost var d, avail := data[..], availableList.nodes;
      var myList := availableList.Steal(links);
      var delList, availList := ClearReleased(toDelete);
      ReleasedPool(d, avail, data[..], availList, delList, bucketsInUse, toDelete);
      Rebuild(delList, freeList, availableList);
      Rebuild(availList, availableList, freeList);
      bucketsInUse := bucketsInUse - toDelete;
    }

    /** The counting part of releaseBuckets: the buckets with all 256 indices in the pool. */
    method FindReleasable() returns (toDelete: set<nat>)
      requires data.Length == RECORDS && NoDup(data[..])
      requires forall k :: 0 <= k < data.Length ==> BucketOf(data[k]) in bucketsInUse
      ensures toDelete == FullBuckets(Elements(data[..]), bucketsInUse)
      ensures toDelete == {} ==> |bucketsInUse| > MAX_BUCKETS
    {
      var counts := CountPerBucket();
      toDelete := set b | b in counts && counts[b] == CHUNKS_IN_BUCKET;
      ReleasableBuckets(data[..], counts, Elements(data[..]), bucketsInUse, toDelete);
      if toDelete == {} {
        NoneReleasable(Elements(data[..]), bucketsInUse, data[..]);
      }
    }

    /** Count the records of every bucket. */
    method CountPerBucket() returns (counts: map<nat, nat>)
      ensures forall b :: CountIn(data[..], b) == if b in counts then counts[b] else 0
    {
      counts := map[];
      for k := 0 to data.Length
        invariant forall b :: CountIn(data[..k], b) == if b in counts then counts[b] else 0
      {
        var b := BucketOf(data[k]);
        assert data[..k + 1] == data[..k] + [data[k]];
        CountPush(data[..k], data[k]);
        counts := counts[b := (if b in counts then counts[b] else 0) + 1];
      }
      assert data[..data.Length] == data[..];
    }

    /** Empty the records of the released buckets and sort all records into two lists. */
    method ClearReleased(toDelete: set<nat>) returns (delList: seq<int>, availList: seq<int>)
      requires data.Length == RECORDS
      modifies data
      ensures Split(old(data[..]), data[..], availList, delList, toDelete)
    {
      delList, availList := [], [];
      for k := 0 to data.Length
        invariant SplitBelow(old(data[..]), data[..], availList, delList, toDelete, k)
        invariant forall n :: k <= n < data.Length ==> data[n] == old(data[n])
      {
        if data[k] == 0 || BucketOf(data[k]) in toDelete {
          data[k] := 0;
          delList := delList + [k];
        } else {
          availList := availList + [k];
        }
      }
    }

    /** Push the nodes of a vector from its back, so that the list gets the vector's order. */
    method Rebuild(nodes: seq<int>, list: NodeList, other: NodeList)
      requires list != other && list.Valid(links) && list.nodes == [] && other.Valid(links)
      requires NoDup(nodes) && InRange(nodes, links.Length)
      requires forall n :: n in nodes ==> n !in other.nodes
      modifies links, list
      ensures list.Valid(links) && list.nodes == nodes
      ensures other.Valid(links)
    {
      var rest := nodes;
      while rest != []
        invariant |rest| <= |nodes| && rest == nodes[..|rest|]
        invariant list.nodes == nodes[|rest|..]
        invariant list.Valid(links) && other.Valid(links)
        decreases |rest|
      {
        var node := rest[|rest| - 1];
        assert node == nodes[|rest| - 1];
        Push(node, list, other);
        assert [node] + nodes[|rest|..] == nodes[|rest| - 1..];
        rest := rest[..|rest| - 1];
      }
    }
  }

  lemma UnusedNext(inUse: set<nat>, first: nat, from: nat, hint: nat, created: seq<nat>)
    requires first <= from <= hint && Elements(created) == Unused(inUse, first, from) && NoDup(created)
    requires forall b :: from <= b < hint ==> b in inUse + Elements(created)
    requires hint !in inUse + Elements(created)
    ensures Elements(created + [hint]) == Unused(inUse, first, hint + 1) && NoDup(created + [hint])
  {
    NoDupPush(created, hint);
  }

  /** A pool of fewer than 2560 indices leaves a node free. */
  lemma RoomLeft(accounting: BucketAccounting, posted: seq<nat>)
    requires accounting.Valid() && NoDup(posted) && |posted| < RECORDS
    requires forall i :: 0 <= i < |posted| ==> BucketOf(posted[i]) in accounting.bucketsInUse
    requires accounting.Outstanding() == Indices(accounting.bucketsInUse) - Elements(posted)
    ensures accounting.freeList.nodes != []
  {
    var a := accounting;
    StoredSize(a.data[..], a.availableList.nodes, a.freeList.nodes, a.bucketsInUse);
    assert a.Available() == Elements(posted);
    NoDupSize(posted);
  }

  lemma NothingPosted(buckets: set<nat>)
    ensures Indices(buckets) == Indices(buckets) - Elements<nat>([])
  {
  }

  lemma PickLast(rest: seq<nat>, posted: seq<nat>, x: nat)
    requires NoDup(rest + posted) && rest != [] && x == rest[|rest| - 1]
    ensures rest[..|rest| - 1] + ([x] + posted) == rest + posted && NoDup([x] + posted)
    ensures x in rest + posted && x !in Elements(posted)
    ensures Elements([x] + posted) == {x} + Elements(posted)
  {
    var all := rest + posted;
    assert all[|rest| - 1..] == [x] + posted;
    assert all[|rest| - 1] == x;
    forall i | 0 <= i < |posted| ensures posted[i] != x {
      assert all[|rest| + i] == posted[i];
    }
    ElementsCons(x, posted);
  }

  /** bucketInfo::loadBuckets (src/modules/filesystem/storage.cpp:160-182): the allocator of
      an existing image, after posting its unused indices from the back of the list. */
  method LoadBuckets(buckets: set<nat>, postList: seq<nat>) returns (accounting: BucketAccounting, ok: bool)
    requires 0 !in buckets
    requires NoDup(postList) && forall i :: 0 <= i < |postList| ==> BucketOf(postList[i]) in buckets
    ensures fresh(accounting.Repr)
    ensures ok ==> accounting.Valid() && accounting.Outstanding() == Indices(buckets) - Elements(postList)
    ensures |postList| <= RECORDS ==> ok && accounting.bucketsInUse == buckets
    ensures ok ==> accounting.hint == 1
    ensures !ok ==> |accounting.bucketsInUse| > MAX_BUCKETS
  {
    hide PoolInv, Held, Elements, Indices;
    accounting := new BucketAccounting(buckets);
    NothingPosted(buckets);
    var rest := postList;
    ghost var posted := [];
    while rest != []
      invariant rest + posted == postList && NoDup(posted)
      invariant forall i :: 0 <= i < |posted| ==> BucketOf(posted[i]) in buckets
      invariant fresh(accounting.Repr)
      invariant accounting.Valid() && accounting.hint == 1
      invariant accounting.Outstanding() == Indices(buckets) - Elements(posted)
      invariant |postList| <= RECORDS ==> accounting.bucketsInUse == buckets
      decreases |rest|
    {
      var index := rest[|rest| - 1];
      PickLast(rest, posted, index);
      assert index == postList[|rest| - 1];
      if |postList| <= RECORDS {
        RoomLeft(accounting, posted);
      }
      ok := accounting.Post(index);
      if !ok {
        return;
      }
      rest := rest[..|rest| - 1];
      posted := [index] + posted;
    }
    ok := true;
    assert posted == postList;
  }

  /** 2560 posted indices without a full bucket leave no room. */
  lemma NothingToRelease(accounting: BucketAccounting, posted: seq<nat>)
    requires accounting.Valid() && NoDup(posted) && |posted| == RECORDS
    requires forall i :: 0 <= i < |posted| ==> BucketOf(posted[i]) in accounting.bucketsInUse
    requires accounting.Outstanding() == Indices(accounting.bucketsInUse) - Elements(posted)
    requires FullBuckets(Elements(posted), accounting.bucketsInUse) == {}
    ensures !accounting.HasRoom()
  {
    var a := accounting;
    StoredSize(a.data[..], a.availableList.nodes, a.freeList.nodes, a.bucketsInUse);
    assert a.Available() == Elements(posted);
    NoDupSize(posted);
  }

  /** The indices mkfs posts (src/modules/filesystem/fs.cpp): those of bucket 1 behind the
      reserved ones. */
  method UnusedOfFirstBucket(reserved: nat) returns (unused: seq<nat>)
    requires reserved <= CHUNKS_IN_BUCKET
    ensures |unused| == CHUNKS_IN_BUCKET - reserved && NoDup(unused)
    ensures forall i :: 0 <= i < |unused| ==> BucketOf(unused[i]) in {1}
    ensures Indices({1}) - Elements(unused) == Reserved(reserved)
  {
    var first: nat := 256 + reserved;
    unused := seq(CHUNKS_IN_BUCKET - reserved, i requires 0 <= i => first + i);
    forall x | x in Indices({1}) && x >= first ensures x in Elements(unused) {
      assert unused[x - first] == x;
    }
  }

  /** A mount that leaves no room: eleven buckets, each with slot 0 still held, and 2560 of the
      other indices unused. */
  method FragmentedMount(buckets: set<nat>) returns (accounting: BucketAccounting, index: nat)
    requires forall b :: b in buckets <==> 1 <= b <= MAX_BUCKETS + 1
    ensures fresh(accounting.Repr) && accounting.Valid() && accounting.bucketsInUse == buckets
    ensures index in accounting.Outstanding() && !accounting.HasRoom()
  {
    var postList := FragmentedPosts(RECORDS, buckets);
    var ok;
    accounting, ok := LoadBuckets(buckets, postList);
    NothingToRelease(accounting, postList);
    index := IndexOf(1, 0);
  }

  method FragmentedPosts(n: nat, ghost buckets: set<nat>) returns (postList: seq<nat>)
    requires forall b :: b in buckets <==> 1 <= b <= MAX_BUCKETS + 1
    requires n <= RECORDS
    ensures |postList| == n && NoDup(postList)
    ensures forall i :: 0 <= i < |postList| ==> BucketOf(postList[i]) in buckets
    ensures FullBuckets(Elements(postList), buckets) == {}
    ensures IndexOf(1, 0) !in Elements(postList)
  {
    hide Elements, NoDup, FragmentedPool, FullBuckets;
    postList := [];
    FragmentedPoolSize(0);
    NothingPostedYet();
    for i := 0 to n
      invariant |postList| == i && NoDup(postList)
      invariant Elements(postList) == FragmentedPool(i)
    {
      FragmentedPoolSize(i);
      NoDupPush(postList, FragmentedRecord(i));
      FragmentedPoolNext(i);
      postList := postList + [FragmentedRecord(i)];
    }
    FragmentedPoolHasNoFullBucket(n, buckets);
    PostsInBuckets(postList, n, buckets);
  }

  lemma NothingPostedYet()
    ensures NoDup<nat>([]) && Elements<nat>([]) == FragmentedPool(0)
  {
  }

  lemma PostsInBuckets(postList: seq<nat>, n: nat, buckets: set<nat>)
    requires Elements(postList) == FragmentedPool(n) && forall x :: x in FragmentedPool(n) ==> BucketOf(x) in buckets
    ensures forall i :: 0 <= i < |postList| ==> BucketOf(postList[i]) in buckets
  {
    hide FragmentedPool;
    forall i | 0 <= i < |postList| ensures BucketOf(postList[i]) in buckets {
      assert postList[i] in Elements(postList);
    }
  }
}
