/** Hash lists on disk: the indices file::rest writes into the inode and its blocks, and the
    hashes loadHashes makes of them, for files that share one chunk store. */
module StoredLists {
  import opened Chunks
  import opened Flattening
  import opened StoreState
  import opened FileSystem
  import opened Dedup
  import InodeContents
  import opened InodeState
  import opened MetaStore

  /** What rest writes: the block of each hash. */
  function IndicesOf(hashes: seq<Hash>): (r: seq<nat>)
    ensures |r| == |hashes| && forall k :: 0 <= k < |r| ==> r[k] == hashes[k].bucketIndex
  {
    seq(|hashes|, k requires 0 <= k < |hashes| => hashes[k].bucketIndex)
  }

  /** The hashes that indices name: those of the slots, from the first on. */
  ghost predicate Names(list: seq<nat>, owner: map<nat, Hash>, hashes: seq<Hash>) {
    |list| <= |hashes| && forall k :: 0 <= k < |list| ==> list[k] in owner && owner[list[k]] == hashes[k]
  }

  /** The indices of a list name its hashes and no empty slot: each is a held block, and no two
      hashes share one. */
  lemma IndicesNameHashes(fs: FileSystem, i: nat)
    requires fs.Valid() && i < |fs.files|
    ensures var list := fs.files[i].hashList;
            && Names(IndicesOf(list), fs.store.view.owner, list)
            && (forall x :: x in IndicesOf(list) ==> x != 0 && x in fs.store.view.owner.Keys)
            && ChunksFor(fs.files[i].size) <= |list|
  {
    hide fs.Valid;
    var list := fs.files[i].hashList;
    ListCoversSize(fs, i);
    forall k | 0 <= k < |list|
      ensures list[k].bucketIndex != 0
      ensures list[k].bucketIndex in fs.store.view.owner && fs.store.view.owner[list[k].bucketIndex] == list[k]
    {
      IndexNamesHash(fs, i, k);
    }
  }

  lemma IndexNamesHash(fs: FileSystem, i: nat, k: nat)
    requires fs.Valid() && i < |fs.files| && k < |fs.files[i].hashList|
    ensures var h := fs.files[i].hashList[k];
            h.bucketIndex != 0 && h.bucketIndex in fs.store.view.owner && fs.store.view.owner[h.bucketIndex] == h
  {
    hide Counted, AllIntact, Indexed, Claims, Traced;
    SlotClaims(ListsOf(fs.files), i, k);
    ClaimedIsLive(fs.store.sha, fs.store.zeroHash, fs.store.view, fs.files[i].hashList[k]);
    fs.store.accounting.InUse(fs.files[i].hashList[k].bucketIndex);
  }

  lemma ListCoversSize(fs: FileSystem, i: nat)
    requires fs.Valid() && i < |fs.files|
    ensures ChunksFor(fs.files[i].size) <= |fs.files[i].hashList|
  {
    fs.BeforeFile(i);
  }

  /** A file is put to rest and its list loaded again, whatever lists were in its blocks before:
      the load names the same hash objects in the same order, all the size of the file calls for,
      and takes no reference on the zero hash. */
  method RestAndLoad(fs: FileSystem, i: nat, meta: MetaBuckets, ino: nat, known: set<nat>)
    returns (list: seq<nat>, zeros: nat)
    requires fs.Valid() && i < |fs.files| && known == fs.store.view.owner.Keys
    requires meta.Valid() && ino in meta.Files() && meta.Files()[ino].size == fs.files[i].size
    modifies meta, meta.accounting.Repr
    ensures meta.Valid() && Names(list, old(fs.store.view.owner), old(fs.files[i].hashList))
    ensures |list| == ChunksFor(old(fs.files[i].size)) && zeros == 0
  {
    hide fs.Valid, meta.Valid, View, InodeContents.Rested, InodeContents.Loaded, InodeContents.Missing, Flat, ChunksFor;
    ghost var was, size := meta.Files()[ino].slots, fs.files[i].size;
    var indices := IndicesOf(fs.files[i].hashList);
    IndicesNameHashes(fs, i);
    meta.Rest(ino, indices);
    list, zeros := meta.LoadHashes(ino, known);
    InodeContents.LoadAfterRest(was, meta.Files()[ino].slots, indices, size, known);
  }
}
