/** The deduplicating chunk store: hash objects, the digest index and the data blocks
    (src/modules/filesystem/hash.cpp and storage.cpp), on top of the block allocator. */
module Store {
  import opened NodeLists
  import opened Pool
  import opened Wrappers
  import opened Chunks
  import opened BlockEvents
  import opened Accounting
  import opened StoreState

  class Storage {
    const sha: Chunk -> Digest
    const zeroHash: Hash
    const accounting: BucketAccounting
    var index: map<Digest, Hash>     // hashesIndex
    var blocks: map<nat, Chunk>      // the chunks of the data buckets
    var calls: seq<Event>            // what was asked of the data buckets
    ghost var view: Snapshot         // what the objects of the store hold

    ghost function Footprint(): set<object>
      reads this
    {
      {this} + accounting.Repr + view.table.Keys
    }

    /** The heap agrees with the snapshot. */
    ghost predicate Linked()
      reads this, accounting.Repr, view.table.Keys
    {
      && view.index == index && view.blocks == blocks && view.events == calls
      && accounting.Valid() && accounting.Outstanding() == view.owner.Keys
      && forall h :: h in view.table ==> h.State() == view.table[h]
    }

    ghost predicate Valid()
      reads this, accounting.Repr, view.table.Keys
    {
      CollisionFree(sha) && Linked() && Inv(sha, zeroHash, view, {})
    }

    /** The data store of a freshly made file system (fs::initFileSystem): bucket 1 exists,
        its block 0 is reserved for the zero hash and its other blocks are posted. */
    constructor (sha: Chunk -> Digest)
      requires CollisionFree(sha)
      ensures Valid() && fresh(Footprint())
      ensures this.sha == sha && view.refs == multiset{}
    {
      hide Inv, CollisionFree, Indices, Elements, NoDup, Reserved, BucketAccounting.Valid, BucketAccounting.Outstanding;
      this.sha := sha;
      var zero := new Hash(sha(ZERO_CHUNK), ZERO_INDEX, 1, ZERO_CHUNK, true);
      zeroHash := zero;
      index := map[sha(ZERO_CHUNK) := zero];
      blocks := map[ZERO_INDEX := ZERO_CHUNK];
      var unused := UnusedOfFirstBucket(1);
      assert Reserved(1) == {ZERO_INDEX};
      var accounting, ok := LoadBuckets({1}, unused);
      this.accounting := accounting;
      calls := [Put(ZERO_INDEX, sha(ZERO_CHUNK), 1, ZERO_CHUNK)];
      view := Initial(zero);
      InitialInv(sha, zero);
      new;
    }

    lemma ZeroFacts()
      requires Valid()
      ensures zeroHash in view.table && zeroHash.content == ZERO_CHUNK && zeroHash.pinned
    {
    }

    lemma ClaimedFacts(h: Hash)
      requires Valid() && h in view.refs
      ensures h in view.table
    {
    }

    /** incRefCnt: the hash is not deleted. */
    method IncRefCnt(h: Hash, n: nat)
      requires Linked() && h in view.table
      requires !h.pinned ==> !view.table[h].deleted
      modifies h`refcnt, this`view, this`calls
      ensures Linked() && view == Incremented(old(view), h, n)
      ensures !h.pinned ==> !h.deleted
    {
      hide accounting.Valid, accounting.Outstanding;
      NotInAccounting(h);
      h.refcnt := h.refcnt + n;
      calls := calls + Recounted(h, h.refcnt);
      view := Incremented(view, h, n);
    }

    /** decRefCnt: a hash that loses its last reference is deleted.  The result is false
        when giving back its block aborts the process. */
    method DecRefCnt(h: Hash) returns (ok: bool)
      requires Linked() && h in view.table && Deletable(view, h)
      modifies h, this, accounting.Repr
      ensures ok ==> Linked() && view == Decremented(old(view), h, old(accounting.bucketsInUse) - accounting.bucketsInUse)
      ensures ok ==> Apart(old(view), old(accounting.bucketsInUse) - accounting.bucketsInUse)
      ensures !ok ==> |accounting.bucketsInUse| > MAX_BUCKETS
    {
      hide accounting.Valid, accounting.Outstanding;
      NotInAccounting(h);
      h.refcnt := h.refcnt - 1;
      if !h.pinned && !h.deleted && h.refcnt == 0 {
        ok := Delete(h);
      } else {
        calls := calls + Recounted(h, h.refcnt);
        view := Decremented(view, h, {});
        ok := true;
      }
    }

    /** The blocks that are held lie in buckets in use. */
    lemma HeldInUse(s: Snapshot, index: nat, released: set<nat>)
      requires accounting.Valid() && accounting.Outstanding() == s.owner.Keys - {index}
      requires BucketOf(index) in accounting.bucketsInUse && released !! accounting.bucketsInUse
      ensures Apart(s, released)
    {
      hide PoolInv, Stored;
      forall i | i in s.owner ensures BucketOf(i) in accounting.bucketsInUse {
        if i != index {
          accounting.InUse(i);
        }
      }
    }

    lemma NotInAccounting(h: Hash)
      requires accounting.Valid()
      ensures h !in accounting.Repr
    {
    }

    /** The branch of decRefCnt for a count of zero: the hash leaves the index, its block is
        cleared and posted. */
    method Delete(h: Hash) returns (ok: bool)
      requires h in view.table && Deletable(view, h) && LastReference(view, h)
      requires view.index == index && view.blocks == blocks && view.events == calls
      requires accounting.Valid() && accounting.Outstanding() == view.owner.Keys
      requires forall g :: g in view.table && g != h ==> g.State() == view.table[g]
      modifies h, this, accounting.Repr
      ensures ok ==> Linked() && view == Decremented(old(view), h, old(accounting.bucketsInUse) - accounting.bucketsInUse)
      ensures ok ==> Apart(old(view), old(accounting.bucketsInUse) - accounting.bucketsInUse)
      ensures !ok ==> |accounting.bucketsInUse| > MAX_BUCKETS
    {
      hide accounting.Valid, accounting.Outstanding, accounting.HasRoom;
      h.deleted := true;
      assert h.digest in index && index[h.digest] == h;
      index := index - {h.digest};
      blocks := blocks[h.bucketIndex := ZERO_CHUNK];
      var inUse := accounting.bucketsInUse;
      ok := accounting.Post(h.bucketIndex);
      if ok {
        HeldInUse(view, h.bucketIndex, inUse - accounting.bucketsInUse);
        Forget(h, inUse - accounting.bucketsInUse);
      }
    }

    /** The end of that branch: the hash drops its chunk. */
    method Forget(h: Hash, released: set<nat>)
      requires h in view.table && LastReference(view, h) && view.events == calls
      requires index == view.index - {h.digest} && blocks == view.blocks[h.bucketIndex := ZERO_CHUNK]
      requires accounting.Valid() && accounting.Outstanding() == view.owner.Keys - {h.bucketIndex}
      requires forall g :: g in view.table && g != h ==> g.State() == view.table[g]
      modifies h, this`view, this`calls
      ensures Linked() && view == Decremented(old(view), h, released)
    {
      hide accounting.Valid, accounting.Outstanding;
      NotInAccounting(h);
      h.ClearData();
      calls := calls + [Drop(h.bucketIndex, released)];
      view := Decremented(view, h, released);
    }

    /** data(true): the chunk of a hash, from the cache or from its block. */
    method Data(h: Hash) returns (chunk: Chunk)
      requires Linked() && h in view.table && Intact(view, h)
      modifies h`data, this`view
      ensures Linked() && view == Cached(old(view), h)
      ensures chunk == h.content
    {
      if h.data.None? && !h.pinned {
        h.data := Some(if h.bucketIndex in blocks then blocks[h.bucketIndex] else ZERO_CHUNK);
      }
      chunk := h.data.value;
      view := Cached(view, h);
    }

    /** rest: drop the cached chunk of a hash, which may have been deleted already. */
    method Rest(h: Hash)
      requires Linked()
      modifies h`data, this`view
      ensures Linked() && view == Rested(old(view), h)
    {
      h.ClearData();
      view := Rested(view, h);
    }

    /** newHash: find the hash of a chunk or create one on a fresh block. */
    method NewHash(digest: Digest, chunk: Chunk) returns (h: Hash)
      requires Linked() && digest == sha(chunk)
      requires digest in index ==> index[digest] in view.table && Intact(view, index[digest])
      modifies this, accounting.Repr, view.table.Keys
      ensures Linked()
      ensures digest in old(index) ==> h == old(index)[digest] && view == Cached(old(view), h)
      ensures digest !in old(index) ==> fresh(h) && view == Created(old(view), h)
      ensures digest !in old(index) ==> h.digest == digest && h.content == chunk && !h.pinned
      ensures digest !in old(index) ==> h.bucketIndex !in old(view).owner
    {
      if digest in index {
        h := index[digest];
        var same := CompareChunk(h, chunk);
      } else {
        h := CreateHash(digest, chunk);
      }
    }

    method CreateHash(digest: Digest, chunk: Chunk) returns (h: Hash)
      requires Linked()
      modifies this, accounting.Repr
      ensures Linked() && view == Created(old(view), h)
      ensures fresh(h) && h.digest == digest && h.content == chunk && !h.pinned
      ensures h.bucketIndex !in old(view).owner
    {
      hide accounting.Valid, accounting.Outstanding;
      var block := accounting.Fetch();
      h := new Hash(digest, block, 0, chunk, false);
      AddHash(h, chunk);
    }

    /** The end of newHash: the chunk goes into its block, the hash into the index. */
    method AddHash(h: Hash, chunk: Chunk)
      requires view.index == index && view.blocks == blocks && view.events == calls
      requires accounting.Valid() && accounting.Outstanding() == view.owner.Keys + {h.bucketIndex}
      requires forall g :: g in view.table ==> g.State() == view.table[g]
      requires h !in view.table && h.State() == HashState(0, false, Some(h.content)) && chunk == h.content
      modifies `blocks, `index, `calls, `view
      ensures Linked() && view == Created(old(view), h)
    {
      hide accounting.Valid, accounting.Outstanding;
      blocks := blocks[h.bucketIndex := chunk];
      index := index[h.digest := h];
      calls := calls + [Put(h.bucketIndex, h.digest, 0, chunk)];
      view := Created(view, h);
    }

    /** compareChunk: loads the stored chunk to compare it. */
    method CompareChunk(h: Hash, chunk: Chunk) returns (same: bool)
      requires Linked() && h in view.table && Intact(view, h)
      modifies h`data, this`view
      ensures Linked() && view == Cached(old(view), h)
      ensures same <==> chunk == h.content
    {
      var d := Data(h);
      same := d == chunk;
    }

    // ---------- what files call ----------

    /** hash::write followed by incRefCnt on its result: the changed chunk gets a reference
        to its hash, unless the write changes nothing. */
    method WriteAndClaim(h: Hash, start: nat, input: seq<Byte>) returns (r: Option<Hash>)
      requires Valid() && h in view.refs + multiset{zeroHash}
      requires start + |input| <= CHUNK_SIZE
      modifies Footprint()
      ensures Valid() && (forall g :: g in view.table && g !in old(view.table) ==> fresh(g))
      ensures r.None? ==> Splice(h.content, start, input) == h.content && view.refs == old(view.refs)
      ensures r.Some? ==> r.value.content == Splice(h.content, start, input) != h.content
      ensures r.Some? ==> view.refs == old(view.refs) + multiset{r.value}
      ensures old(view.events) <= view.events
    {
      var d := Data(h);
      CacheKeepsInv(sha, zeroHash, old(view), h, {});
      var newChunk: Chunk := Splice(d, start, input);
      var digest := sha(newChunk);
      if h.digest == digest {
        return None;
      }
      var newHash := FindOrCreate(digest, newChunk);
      Claim(newHash);
      r := Some(newHash);
    }

    /** incRefCnt, with the invariant. */
    method Claim(h: Hash)
      requires CollisionFree(sha) && Linked() && Inv(sha, zeroHash, view, {h}) && h in view.table
      modifies h`refcnt, this`view, this`calls
      ensures Valid() && view.table.Keys == old(view.table.Keys)
      ensures view.refs == old(view.refs) + multiset{h}
      ensures old(view.events) <= view.events
    {
      ghost var s := view;
      IncRefCnt(h, 1);
      IncrementKeepsInv(sha, zeroHash, s, h, 1);
    }

    /** newHash, with the invariant. */
    method FindOrCreate(digest: Digest, chunk: Chunk) returns (h: Hash)
      requires Valid() && digest == sha(chunk)
      modifies Footprint()
      ensures CollisionFree(sha) && Linked() && Inv(sha, zeroHash, view, {h})
      ensures (forall g :: g in view.table && g !in old(view.table) ==> fresh(g))
      ensures h in view.table && h.content == chunk && view.refs == old(view.refs)
      ensures old(view.events) <= view.events
    {
      ghost var s := view;
      h := NewHash(digest, chunk);
      if digest in s.index {
        CacheKeepsInv(sha, zeroHash, s, h, {});
      } else {
        CreateKeepsInv(sha, zeroHash, s, h);
      }
    }

    /** decRefCnt for every hash of a list, with `rest` after each when asked.  The result is
        false when giving back a block aborts the process. */
    method Release(hashes: seq<Hash>, rest: bool) returns (ok: bool)
      requires Valid() && multiset(hashes) <= view.refs
      modifies this, accounting.Repr, view.table.Keys
      ensures ok ==> Valid() && view.refs == old(view.refs) - multiset(hashes)
      ensures ok ==> old(view.events) <= view.events
      ensures ok ==> view.table.Keys <= old(view.table.Keys)
      ensures !ok ==> |accounting.bucketsInUse| > MAX_BUCKETS
    {
      ok := true;
      NoneReleased(view.refs, hashes);
      for i := 0 to |hashes|
        invariant Valid() && view.table.Keys <= old(view.table.Keys) && old(view.events) <= view.events
        invariant StillToRelease(old(view.refs), view.refs, hashes, i)
      {
        ReleaseNext(old(view.refs), view.refs, hashes, i);
        ok := ReleaseOne(hashes[i], rest);
        if !ok {
          return;
        }
      }
      AllReleased(old(view.refs), view.refs, hashes);
    }

    method ReleaseOne(h: Hash, rest: bool) returns (ok: bool)
      requires Valid() && h in view.refs
      modifies h, this, accounting.Repr
      ensures ok ==> Valid() && view.refs == old(view.refs) - multiset{h}
      ensures ok ==> old(view.events) <= view.events
      ensures ok ==> view.table.Keys <= old(view.table.Keys)
      ensures !ok ==> |accounting.bucketsInUse| > MAX_BUCKETS
    {
      hide Inv, Linked, Decremented;
      ok := DropClaim(h);
      if ok && rest {
        RestKeepsInv(sha, zeroHash, view, h);
        Rest(h);
      }
    }

    /** decRefCnt, with the invariant. */
    method DropClaim(h: Hash) returns (ok: bool)
      requires Valid() && h in view.refs
      modifies h, this, accounting.Repr
      ensures ok ==> Valid() && view.refs == old(view.refs) - multiset{h}
      ensures ok ==> old(view.events) <= view.events
      ensures ok ==> view.table.Keys <= old(view.table.Keys)
      ensures !ok ==> |accounting.bucketsInUse| > MAX_BUCKETS
    {
      ghost var s := view;
      ClaimedIsLive(sha, zeroHash, s, h);
      hide Counted, AllIntact, Traced, OneBlockEach;
      ok := DecRefCnt(h);
      if ok {
        DecrementKeepsInv(sha, zeroHash, s, h, old(accounting.bucketsInUse) - accounting.bucketsInUse);
      }
    }

    /** The zero hash counts the slots a file grows by. */
    method ClaimZero(n: nat)
      requires Valid()
      modifies this, zeroHash
      ensures Valid() && view.table.Keys == old(view.table.Keys)
      ensures view.refs == old(view.refs) + multiset(Repeat(zeroHash, n))
      ensures old(view.events) <= view.events
    {
      hide Counted, AllIntact, Traced, Indexed, OneBlockEach;
      ghost var s := view;
      WeakerInv(sha, zeroHash, s, {zeroHash});
      ZeroFacts();
      IncrementKeepsInv(sha, zeroHash, s, zeroHash, n);
      AddClaims(s.refs, zeroHash, n);
      hide Inv;
      IncRefCnt(zeroHash, n);
    }

    /** hash::rest on a claimed hash; file::rest asserts that its count is positive. */
    method RestClaimed(h: Hash)
      requires Valid() && h in view.refs
      modifies h`data, this`view
      ensures Valid() && view.refs == old(view.refs) && view.table.Keys == old(view.table.Keys)
      ensures old(view.events) <= view.events
    {
      ClaimedIsLive(sha, zeroHash, view, h);
      RestKeepsInv(sha, zeroHash, view, h);
      hide Inv;
      assert h.refcnt > 0;
      Rest(h);
    }

    /** hash::read. */
    method ReadHash(h: Hash, start: nat, size: nat) returns (bytes: seq<Byte>)
      requires Valid() && h in view.refs && start + size <= CHUNK_SIZE
      modifies h`data, this`view
      ensures Valid() && view.refs == old(view.refs) && view.table.Keys == old(view.table.Keys)
      ensures old(view.events) <= view.events
      ensures bytes == h.content[start..start + size]
    {
      CacheKeepsInv(sha, zeroHash, view, h, {});
      var d := Data(h);
      bytes := d[start..start + size];
    }
  }
}
