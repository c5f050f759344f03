/** What deduplication promises in every state between operations of a session that started
    from a new file system: exact reference counts, one hash object and one data block for
    every distinct chunk, and nothing live that is free. */
module Dedup {
  import opened Wrappers
  import opened Chunks
  import opened StoreState
  import opened FileSystem

  /** The slots of all files that hold a hash. */
  ghost function SlotsOf(lists: seq<seq<Hash>>, h: Hash): set<(nat, nat)> {
    set i: nat, k: nat | i < |lists| && k < |lists[i]| && lists[i][k] == h :: (i, k)
  }

  ghost function Holders(list: seq<Hash>, h: Hash, n: nat): set<nat>
    requires n <= |list|
  {
    set k: nat | k < n && list[k] == h
  }

  lemma {:induction false} HoldersSize(list: seq<Hash>, h: Hash, n: nat)
    requires n <= |list|
    ensures |Holders(list, h, n)| == multiset(list[..n])[h]
  {
    if n == 0 {
      assert Holders(list, h, 0) == {};
    } else {
      HoldersSize(list, h, n - 1);
      assert list[..n] == list[..n - 1] + [list[n - 1]];
      if list[n - 1] == h {
        assert Holders(list, h, n) == Holders(list, h, n - 1) + {n - 1};
      } else {
        assert Holders(list, h, n) == Holders(list, h, n - 1);
      }
    }
  }

  lemma PairsSize(ks: set<nat>, i: nat, pairs: set<(nat, nat)>)
    requires pairs == set k | k in ks :: (i, k)
    ensures |pairs| == |ks|
  {
    ImageSize(ks, k => (i, k), pairs);
  }

  lemma {:induction false} ImageSize<A, B>(s: set<A>, f: A -> B, image: set<B>)
    requires forall a, b :: a in s && b in s && f(a) == f(b) ==> a == b
    requires image == set a | a in s :: f(a)
    ensures |image| == |s|
  {
    if s == {} {
      assert image == {};
    } else {
      var a :| a in s;
      var s' := s - {a};
      var image' := set b | b in s' :: f(b);
      ImageSize(s', f, image');
      assert image == image' + {f(a)};
    }
  }

  lemma {:induction false} SlotsCounted(lists: seq<seq<Hash>>, h: Hash)
    ensures |SlotsOf(lists, h)| == Claims(lists)[h]
  {
    if lists == [] {
      assert SlotsOf(lists, h) == {};
    } else {
      var front, last, n := lists[..|lists| - 1], lists[|lists| - 1], |lists| - 1;
      SlotsCounted(front, h);
      HoldersSize(last, h, |last|);
      assert last[..|last|] == last;
      var held := Holders(last, h, |last|);
      var pairs := set k | k in held :: (n, k);
      PairsSize(held, n, pairs);
      assert SlotsOf(lists, h) == SlotsOf(front, h) + pairs;
      assert SlotsOf(front, h) !! pairs;
    }
  }

  /** A hash is live exactly when some slot holds it, or when it is the zero hash; its count
      is the number of those slots, with one more for the zero hash. */
  lemma CountsAreSlots(fs: FileSystem, h: Hash)
    requires fs.Valid() && h in fs.store.view.table
    ensures h.refcnt == |SlotsOf(ListsOf(fs.files), h)| + if h == fs.store.zeroHash then 1 else 0
    ensures !h.deleted
    ensures h != fs.store.zeroHash ==> SlotsOf(ListsOf(fs.files), h) != {}
  {
    SlotsCounted(ListsOf(fs.files), h);
    assert Intact(fs.store.view, h);
  }

  /** The hash in a slot is live: it is in the digest index, its block is held from the
      allocator, and its chunk is found in the cache or in that block. */
  lemma SlotIsLive(fs: FileSystem, i: nat, k: nat)
    requires fs.Valid() && i < |fs.files| && k < |fs.files[i].hashList|
    ensures var h := fs.files[i].hashList[k];
            && h.digest in fs.store.index && fs.store.index[h.digest] == h
            && h.bucketIndex in fs.store.accounting.Outstanding()
            && (if h.pinned then h.data == Some(h.content)
                else Block(fs.store.blocks, h.bucketIndex) == h.content && (h.data == None || h.data == Some(h.content)))
  {
    var h := fs.files[i].hashList[k];
    SlotClaims(ListsOf(fs.files), i, k);
    assert h in fs.store.view.table;
    assert Intact(fs.store.view, h);
  }

  lemma SlotClaims(lists: seq<seq<Hash>>, i: nat, k: nat)
    requires i < |lists| && k < |lists[i]|
    ensures lists[i][k] in Claims(lists)
  {
    ClaimsUpdate(lists, i, []);
    assert lists[i][k] in multiset(lists[i]);
  }

  /** Two slots share a hash object exactly when their chunks are equal. */
  lemma SharedIffEqual(fs: FileSystem, i: nat, k: nat, j: nat, l: nat)
    requires fs.Valid() && i < |fs.files| && k < |fs.files[i].hashList|
    requires j < |fs.files| && l < |fs.files[j].hashList|
    ensures fs.files[i].hashList[k] == fs.files[j].hashList[l]
            <==> fs.files[i].hashList[k].content == fs.files[j].hashList[l].content
  {
    SlotIsLive(fs, i, k);
    SlotIsLive(fs, j, l);
    SlotClaims(ListsOf(fs.files), i, k);
    SlotClaims(ListsOf(fs.files), j, l);
  }

  /** The chunks the files name, and the zero chunk. */
  ghost function DistinctChunks(lists: seq<seq<Hash>>): set<Chunk> {
    (set i: nat, k: nat | i < |lists| && k < |lists[i]| :: lists[i][k].content) + {ZERO_CHUNK}
  }

  /** The allocator has handed out one data block for every distinct chunk over all files,
      counting the zero chunk, and no more. */
  lemma OneBlockPerChunk(fs: FileSystem)
    requires fs.Valid()
    ensures |fs.store.accounting.Outstanding()| == |DistinctChunks(ListsOf(fs.files))|
  {
    var s, lists := fs.store.view, ListsOf(fs.files);
    var live := s.table.Keys;
    BlocksOfLive(fs.store.sha, fs.store.zeroHash, s);
    ChunksOfLive(fs.store.sha, fs.store.zeroHash, s, lists);
  }

  lemma BlocksOfLive(sha: Chunk -> Digest, zero: Hash, s: Snapshot)
    requires Inv(sha, zero, s, {})
    ensures |s.owner.Keys| == |s.table.Keys|
  {
    var live := s.table.Keys;
    ImageSize(live, (h: Hash) => h.bucketIndex, s.owner.Keys);
  }

  lemma ChunksOfLive(sha: Chunk -> Digest, zero: Hash, s: Snapshot, lists: seq<seq<Hash>>)
    requires Inv(sha, zero, s, {}) && s.refs == Claims(lists)
    ensures |DistinctChunks(lists)| == |s.table.Keys|
  {
    hide Indexed, OneBlockEach, Counted, AllIntact, Claims, DistinctChunks;
    SameChunks(zero, s, lists);
    DistinctContents(sha, zero, s);
    ImageSize(s.table.Keys, (h: Hash) => h.content, LiveChunks(s));
  }

  ghost function LiveChunks(s: Snapshot): set<Chunk> {
    set h | h in s.table.Keys :: h.content
  }

  lemma DistinctContents(sha: Chunk -> Digest, zero: Hash, s: Snapshot)
    requires Indexed(sha, zero, s)
    ensures forall g, h :: g in s.table && h in s.table && g.content == h.content ==> g == h
  {
  }

  /** The chunks of the live hashes are those the slots name, and the zero chunk. */
  lemma SameChunks(zero: Hash, s: Snapshot, lists: seq<seq<Hash>>)
    requires Counted(zero, s, {}) && ZeroKept(zero, s) && s.refs == Claims(lists)
    ensures LiveChunks(s) == DistinctChunks(lists)
  {
    forall h | h in s.table ensures h.content in DistinctChunks(lists) {
      if h != zero {
        SlotsCounted(lists, h);
        var p :| p in SlotsOf(lists, h);
        assert lists[p.0][p.1] == h;
      }
    }
    forall c | c in DistinctChunks(lists) ensures c in LiveChunks(s) {
      if c != ZERO_CHUNK {
        var i: nat, k: nat :| i < |lists| && k < |lists[i]| && lists[i][k].content == c;
        SlotClaims(lists, i, k);
      }
    }
  }

  /** The digest index is a bijection onto the live hashes. */
  lemma IndexIsBijection(fs: FileSystem)
    requires fs.Valid()
    ensures forall d :: d in fs.store.index ==> fs.store.index[d] in fs.store.view.table && fs.store.index[d].digest == d
    ensures forall h :: h in fs.store.view.table ==> h.digest in fs.store.index && fs.store.index[h.digest] == h
  {
    hide Counted, ZeroKept;
    forall h | h in fs.store.view.table ensures h.digest in fs.store.index && fs.store.index[h.digest] == h {
      assert Intact(fs.store.view, h);
    }
  }

  /** The outstanding data indices are exactly those of the live hashes, one for each; that of
      the zero hash is the reserved one. */
  lemma OutstandingIsLive(fs: FileSystem)
    requires fs.Valid()
    ensures fs.store.accounting.Outstanding() == set h | h in fs.store.view.table.Keys :: h.bucketIndex
    ensures forall g, h :: g in fs.store.view.table && h in fs.store.view.table && g.bucketIndex == h.bucketIndex ==> g == h
    ensures fs.store.zeroHash in fs.store.view.table && fs.store.zeroHash.bucketIndex == ZERO_INDEX
  {
    hide Counted;
  }
}
