/** Hash objects, and the state of the chunk store as a value: what each operation of the
    store does to it, and the invariant all of them keep. */
module StoreState {
  import opened Pool
  import opened Wrappers
  import opened Chunks
  import opened BlockEvents

  /** A SHA-256 sum. */
  type Digest = seq<Byte>

  /** No two chunks share a digest. */
  ghost predicate CollisionFree(sha: Chunk -> Digest) {
    forall c, d: Chunk :: sha(c) == sha(d) ==> c == d
  }

  /** rootIndex: the data block reserved for the zero chunk. */
  const ZERO_INDEX: nat := IndexOf(1, 0)

  datatype HashState = HashState(refcnt: int, deleted: bool, data: Option<Chunk>)

  /** A hash names one immutable chunk.  `content` is that chunk; the program keeps it in
      `data` while cached and in the data block `bucketIndex`. */
  class Hash {
    const digest: Digest
    const bucketIndex: nat
    const pinned: bool               // FLAG_NOAUTOSTORE | FLAG_NOAUTOLOAD
    var refcnt: int
    var deleted: bool                // FLAG_DELETED
    var data: Option<Chunk>
    ghost const content: Chunk

    ghost function State(): HashState
      reads this
    {
      HashState(refcnt, deleted, data)
    }

    constructor (digest: Digest, bucketIndex: nat, refcnt: int, chunk: Chunk, pinned: bool)
      ensures this.digest == digest && this.bucketIndex == bucketIndex && this.pinned == pinned
      ensures State() == HashState(refcnt, false, Some(chunk)) && content == chunk
    {
      this.digest, this.bucketIndex, this.pinned := digest, bucketIndex, pinned;
      this.refcnt, deleted, data, content := refcnt, false, Some(chunk), chunk;
    }

    /** clearData, also called rest: drop the cached chunk unless the hash is pinned. */
    method ClearData()
      modifies this`data
      ensures data == if pinned then old(data) else None
    {
      if !pinned {
        data := None;
      }
    }
  }

  /** The store: the state of every live hash, the digest index, the data blocks, the
      claims on hashes, the owner of every block held from the allocator, and what was asked
      of the data buckets so far. */
  datatype Snapshot = Snapshot(
    table: map<Hash, HashState>,
    index: map<Digest, Hash>,
    blocks: map<nat, Chunk>,
    refs: multiset<Hash>,
    owner: map<nat, Hash>,
    events: seq<Event>
  )

  /** A data block that was never written is zero. */
  ghost function Block(blocks: map<nat, Chunk>, i: nat): Chunk {
    if i in blocks then blocks[i] else ZERO_CHUNK
  }

  ghost function Incremented(s: Snapshot, h: Hash, n: nat): Snapshot
    requires h in s.table
  {
    s.(table := s.table[h := s.table[h].(refcnt := s.table[h].refcnt + n)],
       refs := s.refs[h := s.refs[h] + n],
       events := s.events + Recounted(h, s.table[h].refcnt + n))
  }

  /** A hash whose count changes tells its bucket, unless it is pinned. */
  function Recounted(h: Hash, refcnt: int): seq<Event> {
    if h.pinned then [] else [Recount(h.bucketIndex, refcnt)]
  }

  ghost predicate LastReference(s: Snapshot, h: Hash)
    requires h in s.table
  {
    !h.pinned && s.table[h].refcnt == 1
  }

  /** What the assertion in decRefCnt and the allocator ask of a hash about to go. */
  ghost predicate Deletable(s: Snapshot, h: Hash)
    requires h in s.table
  {
    && h.digest in s.index && s.index[h.digest] == h
    && h.bucketIndex in s.owner
    && !s.table[h].deleted
  }

  /** One reference less; posting the block of a hash that goes released some buckets. */
  ghost function Decremented(s: Snapshot, h: Hash, released: set<nat>): Snapshot
    requires h in s.table
  {
    if LastReference(s, h) then
      Snapshot(s.table - {h}, s.index - {h.digest}, s.blocks[h.bucketIndex := ZERO_CHUNK],
               s.refs - multiset{h}, s.owner - {h.bucketIndex}, s.events + [Drop(h.bucketIndex, released)])
    else
      s.(table := s.table[h := s.table[h].(refcnt := s.table[h].refcnt - 1)],
         refs := s.refs - multiset{h},
         events := s.events + Recounted(h, s.table[h].refcnt - 1))
  }

  /** No held block lies in a released bucket. */
  ghost predicate Apart(s: Snapshot, released: set<nat>) {
    forall i :: i in s.owner ==> BucketOf(i) !in released
  }

  ghost function Cached(s: Snapshot, h: Hash): Snapshot
    requires h in s.table
  {
    if h.pinned then s else s.(table := s.table[h := s.table[h].(data := Some(h.content))])
  }

  ghost function Rested(s: Snapshot, h: Hash): Snapshot {
    if h.pinned || h !in s.table then s else s.(table := s.table[h := s.table[h].(data := None)])
  }

  /** A new hash on a fresh block, without references yet. */
  ghost function Created(s: Snapshot, h: Hash): Snapshot {
    Snapshot(s.table[h := HashState(0, false, Some(h.content))], s.index[h.digest := h],
             s.blocks[h.bucketIndex := h.content], s.refs, s.owner[h.bucketIndex := h],
             s.events + [Put(h.bucketIndex, h.digest, 0, h.content)])
  }

  /** The store after mkfs: only the zero hash, with the count it is created with. */
  ghost function Initial(zero: Hash): Snapshot {
    Snapshot(map[zero := HashState(1, false, Some(ZERO_CHUNK))], map[zero.digest := zero],
             map[ZERO_INDEX := ZERO_CHUNK], multiset{}, map[ZERO_INDEX := zero],
             [Put(ZERO_INDEX, zero.digest, 1, ZERO_CHUNK)])
  }

  // ---------- the invariant ----------

  /** The chunk of a live hash can be found again. */
  ghost predicate Intact(s: Snapshot, h: Hash)
    requires h in s.table
  {
    && !s.table[h].deleted
    && if h.pinned then s.table[h].data == Some(h.content)
       else Block(s.blocks, h.bucketIndex) == h.content && (s.table[h].data == None || s.table[h].data == Some(h.content))
  }

  /** The index holds exactly the live hashes, each under the digest of its chunk. */
  ghost predicate Indexed(sha: Chunk -> Digest, zero: Hash, s: Snapshot) {
    && (forall h :: h in s.table ==>
          && h.digest in s.index && s.index[h.digest] == h
          && h.digest == sha(h.content)
          && (h.pinned <==> h == zero))
    && (forall d :: d in s.index ==> s.index[d] in s.table && s.index[d].digest == d)
  }

  /** The held blocks are exactly those of the live hashes, one each. */
  ghost predicate OneBlockEach(s: Snapshot) {
    && (forall h :: h in s.table ==> h.bucketIndex in s.owner && s.owner[h.bucketIndex] == h)
    && (forall i :: i in s.owner ==> s.owner[i] in s.table && s.owner[i].bucketIndex == i)
  }

  /** A count is the number of claims, plus one for the zero hash; every live hash other
      than the zero hash is claimed.  The hashes in `unclaimed` are exempt: they were just
      created. */
  ghost predicate Counted(zero: Hash, s: Snapshot, unclaimed: set<Hash>) {
    && (forall h :: h in s.table ==> s.table[h].refcnt == s.refs[h] + if h == zero then 1 else 0)
    && (forall h :: h in s.refs ==> h in s.table)
    && (forall h :: h in s.table && h != zero && h !in unclaimed ==> h in s.refs)
  }

  ghost predicate AllIntact(s: Snapshot) {
    forall h :: h in s.table ==> Intact(s, h)
  }

  ghost predicate ZeroKept(zero: Hash, s: Snapshot) {
    zero in s.table && zero.content == ZERO_CHUNK && zero.bucketIndex == ZERO_INDEX
  }

  /** What the buckets were asked to hold is what the live hashes are: their digests, their
      chunks and, but for the pinned one, their counts. */
  ghost predicate Traced(s: Snapshot) {
    && Legal(s.events) && Live(s.events).Keys == s.owner.Keys
    && forall i :: i in s.owner ==> TracedAt(s, Live(s.events), i)
  }

  ghost predicate TracedAt(s: Snapshot, live: map<nat, Entry>, i: nat)
    requires i in s.owner && i in live
  {
    var h := s.owner[i];
    && live[i].digest == h.digest && live[i].chunk == h.content
    && (h in s.table && !h.pinned ==> live[i].refcnt == s.table[h].refcnt)
  }

  ghost predicate Inv(sha: Chunk -> Digest, zero: Hash, s: Snapshot, unclaimed: set<Hash>) {
    && ZeroKept(zero, s) && AllIntact(s) && Traced(s)
    && Indexed(sha, zero, s) && OneBlockEach(s) && Counted(zero, s, unclaimed)
  }

  lemma SameTrace(s: Snapshot, t: Snapshot)
    requires Traced(s) && t.events == s.events && t.owner == s.owner && t.table.Keys == s.table.Keys
    requires forall h :: h in s.table ==> t.table[h].refcnt == s.table[h].refcnt
    ensures Traced(t)
  {
    hide Legal, Live;
    forall i | i in t.owner ensures TracedAt(t, Live(t.events), i) {
      assert TracedAt(s, Live(s.events), i);
    }
  }

  lemma RecountTraced(s: Snapshot, t: Snapshot, h: Hash)
    requires Traced(s) && OneBlockEach(s) && h in s.table && t.table.Keys == s.table.Keys
    requires t.events == s.events + Recounted(h, t.table[h].refcnt) && t.owner == s.owner
    requires forall g :: g in s.table && g != h ==> t.table[g].refcnt == s.table[g].refcnt
    ensures Traced(t)
  {
    hide Legal, Live;
    if h.pinned {
      assert t.events == s.events;
    } else {
      Push(s.events, Recount(h.bucketIndex, t.table[h].refcnt));
    }
    forall i | i in t.owner ensures i in Live(t.events) && TracedAt(t, Live(t.events), i) {
      assert TracedAt(s, Live(s.events), i);
    }
  }

  lemma DropTraced(s: Snapshot, t: Snapshot, h: Hash, released: set<nat>)
    requires Traced(s) && OneBlockEach(s) && Apart(s, released) && h in s.table
    requires t.table == s.table - {h} && t.owner == s.owner - {h.bucketIndex}
    requires t.events == s.events + [Drop(h.bucketIndex, released)]
    ensures Traced(t)
  {
    hide Legal, Live;
    Push(s.events, Drop(h.bucketIndex, released));
    forall i | i in t.owner ensures i in Live(t.events) && TracedAt(t, Live(t.events), i) {
      assert TracedAt(s, Live(s.events), i);
    }
  }

  lemma PutTraced(s: Snapshot, t: Snapshot, h: Hash)
    requires Traced(s) && OneBlockEach(s) && h !in s.table && h.bucketIndex !in s.owner
    requires h in t.table && t.table == s.table[h := t.table[h]] && t.table[h].refcnt == 0
    requires t.owner == s.owner[h.bucketIndex := h]
    requires t.events == s.events + [Put(h.bucketIndex, h.digest, 0, h.content)]
    ensures Traced(t)
  {
    hide Legal, Live;
    Push(s.events, Put(h.bucketIndex, h.digest, 0, h.content));
    forall i | i in t.owner ensures i in Live(t.events) && TracedAt(t, Live(t.events), i) {
      if i != h.bucketIndex {
        assert TracedAt(s, Live(s.events), i);
      }
    }
  }

  lemma InitialTraced(zero: Hash)
    requires zero.bucketIndex == ZERO_INDEX && zero.content == ZERO_CHUNK
    ensures Traced(Initial(zero))
  {
    Push([], Put(ZERO_INDEX, zero.digest, 1, ZERO_CHUNK));
    assert [] + [Put(ZERO_INDEX, zero.digest, 1, ZERO_CHUNK)] == Initial(zero).events;
  }

  lemma InitialInv(sha: Chunk -> Digest, zero: Hash)
    requires zero.pinned && zero.bucketIndex == ZERO_INDEX && zero.content == ZERO_CHUNK
    requires zero.digest == sha(ZERO_CHUNK)
    ensures Inv(sha, zero, Initial(zero), {})
  {
    hide Traced;
    InitialTraced(zero);
    assert zero in Initial(zero).table;
  }

  /** The assertions on reference counts hold: whoever claims a hash finds a live one. */
  lemma ClaimedIsLive(sha: Chunk -> Digest, zero: Hash, s: Snapshot, h: Hash)
    requires Inv(sha, zero, s, {}) && h in s.refs
    ensures h in s.table && s.table[h].refcnt > 0 && !s.table[h].deleted
  {
    assert Intact(s, h);
  }

  lemma WeakerInv(sha: Chunk -> Digest, zero: Hash, s: Snapshot, unclaimed: set<Hash>)
    requires Inv(sha, zero, s, {})
    ensures Inv(sha, zero, s, unclaimed)
  {
  }

  lemma IncrementKeepsInv(sha: Chunk -> Digest, zero: Hash, s: Snapshot, h: Hash, n: nat)
    requires Inv(sha, zero, s, {h}) && h in s.table
    requires n > 0 || h == zero
    ensures Inv(sha, zero, Incremented(s, h, n), {})
    ensures Incremented(s, h, n).table.Keys == s.table.Keys
    ensures n == 1 ==> Incremented(s, h, n).refs == s.refs + multiset{h}
  {
    hide AllIntact, Indexed, OneBlockEach, Counted, ZeroKept, Traced;
    IntactFrame(s, Incremented(s, h, n));
    SameHashes(sha, zero, s, Incremented(s, h, n));
    IncrementKeepsCounts(zero, s, h, n);
    RecountTraced(s, Incremented(s, h, n), h);
    AddClaim(s.refs, h);
  }

  /** A list of n copies. */
  function Repeat<T>(x: T, n: nat): (r: seq<T>)
    ensures |r| == n && forall i :: 0 <= i < n ==> r[i] == x
  {
    seq(n, _ => x)
  }

  lemma {:induction false} AddClaims(refs: multiset<Hash>, h: Hash, n: nat)
    ensures refs[h := refs[h] + n] == refs + multiset(Repeat(h, n))
  {
    if n == 0 {
      assert Repeat(h, n) == [];
    } else {
      AddClaims(refs, h, n - 1);
      AddClaim(refs[h := refs[h] + n - 1], h);
      assert Repeat(h, n) == Repeat(h, n - 1) + [h];
    }
  }

  /** The claims of hashes[i..] are still held, those before were given up. */
  ghost predicate StillToRelease(refs: multiset<Hash>, now: multiset<Hash>, hashes: seq<Hash>, i: nat) {
    && i <= |hashes|
    && multiset(hashes[i..]) <= now
    && now - multiset(hashes[i..]) == refs - multiset(hashes)
  }

  lemma NoneReleased(refs: multiset<Hash>, hashes: seq<Hash>)
    requires multiset(hashes) <= refs
    ensures StillToRelease(refs, refs, hashes, 0)
  {
    assert hashes[0..] == hashes;
  }

  lemma ReleaseNext(refs: multiset<Hash>, now: multiset<Hash>, hashes: seq<Hash>, i: nat)
    requires StillToRelease(refs, now, hashes, i) && i < |hashes|
    ensures hashes[i] in now && StillToRelease(refs, now - multiset{hashes[i]}, hashes, i + 1)
  {
    assert hashes[i..] == [hashes[i]] + hashes[i + 1..];
    assert hashes[i] in multiset(hashes[i..]);
  }

  lemma AllReleased(refs: multiset<Hash>, now: multiset<Hash>, hashes: seq<Hash>)
    requires StillToRelease(refs, now, hashes, |hashes|)
    ensures now == refs - multiset(hashes)
  {
    assert hashes[|hashes|..] == [];
  }

  lemma AddClaim(refs: multiset<Hash>, h: Hash)
    ensures refs[h := refs[h] + 1] == refs + multiset{h}
  {
  }

  lemma IncrementKeepsCounts(zero: Hash, s: Snapshot, h: Hash, n: nat)
    requires Counted(zero, s, {h}) && h in s.table
    requires n > 0 || h == zero
    ensures Counted(zero, Incremented(s, h, n), {})
  {
  }

  /** The parts of the invariant that do not look at counts or cached chunks. */
  lemma SameHashes(sha: Chunk -> Digest, zero: Hash, s: Snapshot, t: Snapshot)
    requires t.table.Keys == s.table.Keys && t.index == s.index && t.owner == s.owner
    ensures Indexed(sha, zero, s) ==> Indexed(sha, zero, t)
    ensures OneBlockEach(s) ==> OneBlockEach(t)
    ensures ZeroKept(zero, s) ==> ZeroKept(zero, t)
  {
    assert forall h :: h in s.table <==> h in t.table;
  }

  lemma SameCounts(zero: Hash, s: Snapshot, t: Snapshot, unclaimed: set<Hash>)
    requires t.table.Keys == s.table.Keys && t.refs == s.refs
    requires forall h :: h in s.table ==> t.table[h].refcnt == s.table[h].refcnt
    requires Counted(zero, s, unclaimed)
    ensures Counted(zero, t, unclaimed)
  {
    assert forall h :: h in s.table <==> h in t.table;
  }

  /** Live hashes that keep their block, flag and cache stay intact. */
  lemma IntactFrame(s: Snapshot, t: Snapshot)
    requires AllIntact(s)
    requires forall h :: h in t.table ==>
      && h in s.table
      && t.table[h].deleted == s.table[h].deleted
      && Block(t.blocks, h.bucketIndex) == Block(s.blocks, h.bucketIndex)
      && (t.table[h].data == s.table[h].data || t.table[h].data == Some(h.content) || (!h.pinned && t.table[h].data == None))
    ensures AllIntact(t)
  {
    forall h | h in t.table ensures Intact(t, h) {
      assert Intact(s, h);
    }
  }

  lemma DecrementKeepsInv(sha: Chunk -> Digest, zero: Hash, s: Snapshot, h: Hash, released: set<nat>)
    requires Inv(sha, zero, s, {}) && h in s.refs && Apart(s, released)
    ensures Inv(sha, zero, Decremented(s, h, released), {})
    ensures Decremented(s, h, released).table.Keys <= s.table.Keys
  {
    hide AllIntact, Indexed, OneBlockEach, Counted, ZeroKept, Traced;
    DecrementKeepsCounts(sha, zero, s, h, released);
    if LastReference(s, h) {
      DeleteKeepsHashes(sha, zero, s, h, released);
      DeleteKeepsIntact(s, h, released);
      DropTraced(s, Decremented(s, h, released), h, released);
    } else {
      IntactFrame(s, Decremented(s, h, released));
      SameHashes(sha, zero, s, Decremented(s, h, released));
      RecountTraced(s, Decremented(s, h, released), h);
    }
  }

  lemma DecrementKeepsCounts(sha: Chunk -> Digest, zero: Hash, s: Snapshot, h: Hash, released: set<nat>)
    requires Counted(zero, s, {}) && h in s.refs && Indexed(sha, zero, s)
    ensures h in s.table && Counted(zero, Decremented(s, h, released), {})
  {
  }

  lemma DeleteKeepsHashes(sha: Chunk -> Digest, zero: Hash, s: Snapshot, h: Hash, released: set<nat>)
    requires Indexed(sha, zero, s) && OneBlockEach(s) && ZeroKept(zero, s)
    requires h in s.table && LastReference(s, h)
    ensures var t := Decremented(s, h, released); Indexed(sha, zero, t) && OneBlockEach(t) && ZeroKept(zero, t)
  {
  }

  lemma DeleteKeepsIntact(s: Snapshot, h: Hash, released: set<nat>)
    requires OneBlockEach(s) && AllIntact(s)
    requires h in s.table && LastReference(s, h)
    ensures AllIntact(Decremented(s, h, released))
  {
    IntactFrame(s, Decremented(s, h, released));
  }

  lemma CacheKeepsInv(sha: Chunk -> Digest, zero: Hash, s: Snapshot, h: Hash, unclaimed: set<Hash>)
    requires Inv(sha, zero, s, unclaimed) && h in s.table
    ensures Inv(sha, zero, Cached(s, h), unclaimed)
    ensures Cached(s, h).table.Keys == s.table.Keys
  {
    hide AllIntact, Indexed, OneBlockEach, Counted, ZeroKept, Traced;
    IntactFrame(s, Cached(s, h));
    SameCounts(zero, s, Cached(s, h), unclaimed);
    SameHashes(sha, zero, s, Cached(s, h));
    SameTrace(s, Cached(s, h));
  }

  lemma RestKeepsInv(sha: Chunk -> Digest, zero: Hash, s: Snapshot, h: Hash)
    requires Inv(sha, zero, s, {})
    ensures Inv(sha, zero, Rested(s, h), {}) && Rested(s, h).refs == s.refs
    ensures Rested(s, h).table.Keys == s.table.Keys
  {
    hide AllIntact, Indexed, OneBlockEach, Counted, ZeroKept, Traced;
    IntactFrame(s, Rested(s, h));
    SameCounts(zero, s, Rested(s, h), {});
    SameHashes(sha, zero, s, Rested(s, h));
    SameTrace(s, Rested(s, h));
  }

  lemma CreateKeepsInv(sha: Chunk -> Digest, zero: Hash, s: Snapshot, h: Hash)
    requires Inv(sha, zero, s, {})
    requires h !in s.table && h.digest == sha(h.content) && h.digest !in s.index
    requires !h.pinned && h.bucketIndex !in s.owner
    ensures Inv(sha, zero, Created(s, h), {h})
  {
    hide AllIntact, Counted, Traced;
    CreateKeepsHashes(sha, zero, s, h);
    CreateKeepsIntact(s, h);
    CreateKeepsCounts(zero, s, h);
    PutTraced(s, Created(s, h), h);
  }

  lemma CreateKeepsCounts(zero: Hash, s: Snapshot, h: Hash)
    requires Counted(zero, s, {}) && zero in s.table && h !in s.table
    ensures Counted(zero, Created(s, h), {h})
  {
    assert h !in s.refs;
  }

  lemma CreateKeepsHashes(sha: Chunk -> Digest, zero: Hash, s: Snapshot, h: Hash)
    requires Indexed(sha, zero, s) && OneBlockEach(s) && ZeroKept(zero, s)
    requires h !in s.table && h.digest == sha(h.content) && h.digest !in s.index
    requires !h.pinned && h.bucketIndex !in s.owner
    ensures Indexed(sha, zero, Created(s, h)) && OneBlockEach(Created(s, h)) && ZeroKept(zero, Created(s, h))
  {
  }

  lemma CreateKeepsIntact(s: Snapshot, h: Hash)
    requires OneBlockEach(s) && AllIntact(s)
    requires h !in s.table && !h.pinned && h.bucketIndex !in s.owner
    ensures AllIntact(Created(s, h))
  {
    var t := Created(s, h);
    forall g | g in t.table ensures Intact(t, g) {
      if g != h {
        assert Intact(s, g);
      }
    }
  }
}
