/** The metadata store: what resting, loading, storing metadata and deleting do to the blocks of
    the metadata buckets (src/modules/filesystem/file.cpp and fs.cpp). */
module MetaStore {
  import opened NodeLists
  import opened Pool
  import opened Chunks
  import opened Accounting
  import opened Flattening
  import opened InodeState
  import opened InodeContents

  const ROOT_INDEX: nat := IndexOf(1, 0)
  const META_INDEX: nat := IndexOf(1, 1)

  function RootText(metaString: seq<Byte>): (text: seq<Byte>)
    requires |metaString| < CTD_CHARS
    ensures |text| == CTD_CHARS
  {
    metaString + Zeros(CTD_CHARS - |metaString|)
  }

  function RootView(metaString: seq<Byte>): FileView
    requires |metaString| < CTD_CHARS
  {
    FileView([NoSlots(INODE_SLOTS)], [RootText(metaString)], |metaString|, 0)
  }

  function RootBlocks(metaString: seq<Byte>): Blocks
    requires |metaString| < CTD_CHARS
  {
    Blocks(map[ROOT_INDEX := NewInode(ROOT_INDEX).(metaID := META_INDEX, metasize := |metaString|)],
           map[META_INDEX := NewCtd(META_INDEX).(charContent := RootText(metaString))])
  }

  function RootLayout(): Layout {
    Layout(map[Content(ROOT_INDEX) := [], Meta(ROOT_INDEX) := [META_INDEX]], map[META_INDEX := Place(Meta(ROOT_INDEX), 0)])
  }

  /** The root's metadata read back as the string mkfs was given, unless that ends in NUL. */
  lemma RootTextLoads(metaString: seq<Byte>)
    requires |metaString| < CTD_CHARS
    ensures var v := RootView(metaString);
            && v.size == 0 && v.metasize == |metaString| && Flat(v.slots) == NoSlots(495)
            && (Restored(Flat(v.text), v.metasize) == metaString <==>
                  metaString == [] || metaString[|metaString| - 1] != 0)
  {
    var none := [Zeros(CTD_CHARS)];
    FlatOne(Zeros(CTD_CHARS));
    FlatOne(RootText(metaString));
    FlatOne(NoSlots(INODE_SLOTS));
    LoadAfterStore(none, [RootText(metaString)], metaString);
  }

  lemma RootLinked(metaString: seq<Byte>)
    requires |metaString| < CTD_CHARS
    ensures Linked(RootBlocks(metaString), RootLayout())
    ensures View(RootBlocks(metaString), RootLayout()) == map[ROOT_INDEX := RootView(metaString)]
  {
    hide ChainOk;
    var b, lay := RootBlocks(metaString), RootLayout();
    EmptyChainOk(b.nodes, lay.places, Content(ROOT_INDEX));
    RootChainOk(metaString);
    assert InodeOk(ROOT_INDEX, b.inodes[ROOT_INDEX], lay.chains);
    assert PlaceOk(META_INDEX, lay.places[META_INDEX], lay.chains);
    assert ViewOf(b, lay, ROOT_INDEX) == RootView(metaString);
  }

  lemma RootChainOk(metaString: seq<Byte>)
    requires |metaString| < CTD_CHARS
    ensures ChainOk(RootBlocks(metaString).nodes, RootLayout().places, Meta(ROOT_INDEX), [META_INDEX])
  {
    var b, lay, chain := RootBlocks(metaString), RootLayout(), [META_INDEX];
    forall k | 0 <= k < |chain| ensures NodeOk(b.nodes, lay.places, Meta(ROOT_INDEX), chain, k) {
    }
  }

  lemma AppendedToNode(b: Blocks, lay: Layout, c: Chain, id: nat, node: nat)
    requires c.ino in b.inodes && c in lay.chains && lay.chains[c] != [] && node == lay.chains[c][|lay.chains[c]| - 1]
    requires node in b.nodes
    ensures ChainOf(lay, c) == lay.chains[c] && c in AppendedLay(lay, c, id).chains
    ensures AppendedLay(lay, c, id).chains[c] == lay.chains[c] + [id]
    ensures Appended(b, lay, c, id) == b.(nodes := b.nodes[node := b.nodes[node].(nextID := id)][id := NewCtd(id)])
  {
  }

  lemma AppendedToInode(b: Blocks, lay: Layout, c: Chain, id: nat)
    requires c.ino in b.inodes && c in lay.chains && lay.chains[c] == []
    ensures ChainOf(lay, c) == [] && c in AppendedLay(lay, c, id).chains
    ensures AppendedLay(lay, c, id).chains[c] == [id]
    ensures var inode := b.inodes[c.ino];
            Appended(b, lay, c, id) ==
            Blocks(b.inodes[c.ino := if c.Meta? then inode.(metaID := id) else inode.(nextID := id)], b.nodes[id := NewCtd(id)])
  {
  }

  class MetaBuckets {
    const accounting: BucketAccounting
    var disk: Blocks
    var loaded: set<nat>             // the buckets that have been opened
    ghost var layout: Layout

    ghost function Footprint(): set<object> {
      {this} + accounting.Repr
    }

    /** The blocks in use are exactly those the allocator has given out and not got back. */
    ghost predicate Valid()
      reads this, Footprint()
    {
      && accounting.Valid() && accounting.Outstanding() == disk.inodes.Keys + disk.nodes.Keys
      && loaded <= accounting.bucketsInUse
      && Linked(disk, layout)
    }

    /** What every inode keeps. */
    ghost function Files(): map<nat, FileView>
      reads this
    {
      View(disk, layout)
    }

    /** A freshly made file system: bucket 1 exists, its blocks 0 and 1 are the root inode and
        the root's metadata, and its other blocks are posted. */
    constructor (metaString: seq<Byte>)
      requires |metaString| < CTD_CHARS
      ensures Valid() && fresh(Footprint())
      ensures Files() == map[ROOT_INDEX := RootView(metaString)]
    {
      hide PoolInv, Held, Indices, Elements, NoDup, Linked, View, Reserved;
      var unused := UnusedOfFirstBucket(2);
      assert Reserved(2) == {ROOT_INDEX, META_INDEX};
      var accounting, ok := LoadBuckets({1}, unused);
      this.accounting := accounting;
      RootLinked(metaString);
      disk := RootBlocks(metaString);
      layout := RootLayout();
      loaded := {1};
      new;
    }

    /** A fetched block that nothing uses yet. */
    method FetchBlock() returns (id: nat)
      requires Valid()
      modifies this, accounting.Repr
      ensures accounting.Valid() && accounting.Outstanding() == disk.inodes.Keys + disk.nodes.Keys + {id}
      ensures disk == old(disk) && layout == old(layout) && loaded == old(loaded)
      ensures id != 0 && id !in disk.inodes && id !in disk.nodes
      ensures loaded <= accounting.bucketsInUse && BucketOf(id) in accounting.bucketsInUse
      ensures accounting.bucketsInUse != old(accounting.bucketsInUse) ==> BucketOf(id) !in loaded
    {
      hide PoolInv;
      id := accounting.Fetch();
    }

    lemma BlocksInUse(id: nat)
      requires accounting.Valid() && id in accounting.Outstanding()
      ensures BucketOf(id) in accounting.bucketsInUse
    {
      hide PoolInv;
    }

    /** A new inode in a fetched block. */
    method NewFile() returns (id: nat)
      requires Valid()
      modifies this, accounting.Repr
      ensures Valid() && id !in old(Files())
      ensures Files() == old(Files())[id := FileView([NoSlots(INODE_SLOTS)], [], 0, 0)]
    {
      hide accounting.Valid, accounting.Outstanding, Linked, View;
      id := FetchBlock();
      CreateKeepsLinked(disk, layout, id);
      CreateView(disk, layout, id);
      disk, layout := Created(disk, id), CreatedLay(layout, id);
      loaded := loaded + {BucketOf(id)};
    }

    method SetSize(i: nat, size: nat)
      requires Valid() && i in disk.inodes
      modifies `disk
      ensures Valid() && Files() == old(Files())[i := old(Files())[i].(size := size)]
    {
      hide accounting.Valid, accounting.Outstanding, Linked, View;
      InodeFields(i);
      ghost var slots := Files()[i].slots;
      assert slots[0 := disk.inodes[i].ctd] == slots;
      SetInode(disk.inodes[i].(size := size));
    }

    /** Changing the fields of an inode other than its links. */
    method SetInode(inode: Inode)
      requires Valid() && inode.myID in disk.inodes
      requires inode.nextID == disk.inodes[inode.myID].nextID && inode.metaID == disk.inodes[inode.myID].metaID
      requires |inode.ctd| == INODE_SLOTS && (inode.metasize > 0 ==> inode.metaID != 0)
      modifies `disk
      ensures Valid() && disk == WithInode(old(disk), inode)
      ensures var was := old(Files())[inode.myID];
              was.slots != [] && Files() == old(Files())[inode.myID :=
                was.(slots := was.slots[0 := inode.ctd], metasize := inode.metasize, size := inode.size)]
    {
      hide accounting.Valid, accounting.Outstanding, Linked, View;
      InodeFields(inode.myID);
      InodeChanged(disk, layout, inode);
      disk := WithInode(disk, inode);
    }

    // ---------- growing a chain ----------

    /** createCtd for an inode: the first block of its content or metadata chain. */
    method FirstCtd(i: nat, forMeta: bool) returns (id: nat)
      requires Valid() && i in disk.inodes
      modifies this, accounting.Repr
      ensures Valid()
      ensures var c := if forMeta then Meta(i) else Content(i);
              && c in old(layout).chains && c in layout.chains && layout.chains[c] != [] && id == layout.chains[c][0]
              && Extended(old(disk), old(layout), c, old(layout).chains[c] == [], id)
              && (accounting.bucketsInUse != old(accounting.bucketsInUse) ==>
                    old(layout).chains[c] == [] && BucketOf(id) !in old(loaded))
      ensures loaded == old(loaded) + {BucketOf(id)}
    {
      hide accounting.Valid, accounting.Outstanding, Linked, View, Appended, AppendedLay, ChainOf;
      ghost var c := if forMeta then Meta(i) else Content(i);
      InodeChains(i);
      var inode := disk.inodes[i];
      id := if forMeta then inode.metaID else inode.nextID;
      if id == 0 {
        id := FetchBlock();
        AppendKeepsLinked(disk, layout, c, id);
        AppendView(disk, layout, c, id);
        AppendedToInode(disk, layout, c, id);
        disk := Blocks(disk.inodes[i := if forMeta then inode.(metaID := id) else inode.(nextID := id)],
                       disk.nodes[id := NewCtd(id)]);
        layout := AppendedLay(layout, c, id);
      } else {
        NodeInUse(c, 0);
      }
      loaded := loaded + {BucketOf(id)};
    }

    /** The state before, or one with a new block `id` at the end of chain c. */
    ghost predicate Extended(was: Blocks, lay: Layout, c: Chain, grown: bool, id: nat)
      reads this
    {
      if grown then
        && c.ino in View(was, lay) && layout == AppendedLay(lay, c, id)
        && Files() == View(was, lay)[c.ino := WithBlock(View(was, lay)[c.ino], c)]
      else
        disk == was && layout == lay
    }

    /** createCtd for a continuation block. */
    method NextCtd(node: nat, ghost c: Chain, ghost at: nat) returns (id: nat)
      requires Valid() && c in layout.chains && at < |layout.chains[c]| && layout.chains[c][at] == node
      modifies this, accounting.Repr
      ensures Valid()
      ensures && c in layout.chains && at + 1 < |layout.chains[c]| && id == layout.chains[c][at + 1]
              && Extended(old(disk), old(layout), c, |old(layout).chains[c]| == at + 1, id)
              && (accounting.bucketsInUse != old(accounting.bucketsInUse) ==>
                    |old(layout).chains[c]| == at + 1 && BucketOf(id) !in old(loaded))
      ensures loaded == old(loaded) + {BucketOf(id)}
    {
      hide accounting.Valid, accounting.Outstanding, Linked, View, Appended, AppendedLay, ChainOf;
      NextLink(c, at);
      id := disk.nodes[node].nextID;
      if id == 0 {
        id := FetchBlock();
        AppendKeepsLinked(disk, layout, c, id);
        AppendView(disk, layout, c, id);
        AppendedToNode(disk, layout, c, id, node);
        disk := disk.(nodes := disk.nodes[node := disk.nodes[node].(nextID := id)][id := NewCtd(id)]);
        layout := AppendedLay(layout, c, id);
      } else {
        NodeInUse(c, at + 1);
      }
      loaded := loaded + {BucketOf(id)};
    }

    lemma NodeInUse(c: Chain, at: nat)
      requires Valid() && c in layout.chains && at < |layout.chains[c]|
      ensures BucketOf(layout.chains[c][at]) in accounting.bucketsInUse
    {
      hide accounting.Valid, accounting.Outstanding;
      NodeOkAt(disk, layout, c, at);
      BlocksInUse(layout.chains[c][at]);
    }

    lemma NextLink(c: Chain, at: nat)
      requires Linked(disk, layout) && c in layout.chains && at < |layout.chains[c]|
      ensures layout.chains[c][at] in disk.nodes
      ensures var next := disk.nodes[layout.chains[c][at]].nextID;
              if at + 1 < |layout.chains[c]| then next == layout.chains[c][at + 1] != 0 else next == 0
    {
      NodeOkAt(disk, layout, c, at);
      if at + 1 < |layout.chains[c]| { NodeOkAt(disk, layout, c, at + 1); }
    }

    lemma InodeChains(i: nat)
      requires Linked(disk, layout) && i in disk.inodes
      ensures Content(i) in layout.chains && Meta(i) in layout.chains
      ensures forall c :: c == Content(i) || c == Meta(i) ==>
                if layout.chains[c] == [] then First(disk.inodes[i], c) == 0
                else First(disk.inodes[i], c) == layout.chains[c][0] != 0
    {
      HasChains(disk, layout, i);
      if layout.chains[Content(i)] != [] { NodeOkAt(disk, layout, Content(i), 0); }
      if layout.chains[Meta(i)] != [] { NodeOkAt(disk, layout, Meta(i), 0); }
    }

    lemma InodeFields(i: nat)
      requires Linked(disk, layout) && i in disk.inodes
      ensures var inode := disk.inodes[i];
              && inode.myID == i && |inode.ctd| == INODE_SLOTS && (inode.metasize > 0 ==> inode.metaID != 0)
              && Files()[i].slots != [] && Files()[i].slots[0] == inode.ctd
              && Files()[i].metasize == inode.metasize && Files()[i].size == inode.size
    {
      InodeChains(i);
      HasChains(disk, layout, i);
      assert InodeOk(i, disk.inodes[i], layout.chains);
    }

    // ---------- file::rest and file::loadHashes ----------

    /** c is block p of file i: the inode itself, or a block of its content chain. */
    ghost predicate Cursor(i: nat, p: nat, c: nat)
      reads this
    {
      && i in disk.inodes && Content(i) in layout.chains && p <= |layout.chains[Content(i)]|
      && c == if p == 0 then i else layout.chains[Content(i)][p - 1]
    }

    lemma SlotsShaped(i: nat)
      requires Linked(disk, layout) && i in disk.inodes
      ensures Content(i) in layout.chains && Shaped(Files()[i].slots)
      ensures |Files()[i].slots| == |layout.chains[Content(i)]| + 1
    {
      HasChains(disk, layout, i);
      var slots := Files()[i].slots;
      forall p | 0 < p < |slots| ensures |slots[p]| == CTD_SLOTS {
        NodeOkAt(disk, layout, Content(i), p - 1);
      }
    }

    /** Writing entry idx of the block the cursor is at. */
    method PutSlot(i: nat, c: nat, imax: nat, idx: nat, x: nat, ghost p: nat)
      requires Valid() && Cursor(i, p, c) && idx < imax
      requires imax == if p == 0 then INODE_SLOTS else CTD_SLOTS
      modifies `disk
      ensures Valid() && i in disk.inodes
      ensures var was := old(Files())[i];
              && p < |was.slots| && idx < |was.slots[p]|
              && Files() == old(Files())[i := was.(slots := Put(was.slots, p, idx, x))]
    {
      hide accounting.Valid, accounting.Outstanding, Linked, View;
      SlotsShaped(i);
      InodeFields(i);
      if imax == INODE_SLOTS {
        var inode := disk.inodes[i];
        SetInode(inode.(ctd := inode.ctd[idx := x]));
      } else {
        SlotAt(i, p, c, idx);
        var node := disk.nodes[c];
        SlotsChanged(disk, layout, i, p - 1, node.ctd[idx := x]);
        disk := WithNode(disk, node.(ctd := node.ctd[idx := x]));
      }
    }

    /** On to the next block, which is created when there is none. */
    method Advance(i: nat, c: nat, nextId: nat, imax: nat, ghost p: nat) returns (c': nat, nextId': nat)
      requires Valid() && Cursor(i, p, c) && (imax == INODE_SLOTS <==> p == 0)
      requires nextId == Following(layout.chains[Content(i)], p - 1)
      modifies this, accounting.Repr
      ensures Valid() && Cursor(i, p + 1, c')
      ensures nextId' == Following(layout.chains[Content(i)], p)
      ensures var was := old(Files())[i];
              if p + 1 < |was.slots| then Files() == old(Files())
              else Files() == old(Files())[i := was.(slots := was.slots + [NoSlots(CTD_SLOTS)])]
    {
      hide accounting.Valid, accounting.Outstanding, Linked, View;
      SlotsShaped(i);
      InodeChains(i);
      if p > 0 { NextLink(Content(i), p - 1); }
      if nextId != 0 {
        c' := nextId;
      } else if imax == INODE_SLOTS {
        c' := FirstCtd(i, false);
      } else {
        c' := NextCtd(c, Content(i), p - 1);
      }
      NextLink(Content(i), p);
      nextId' := disk.nodes[c'].nextID;
    }

    /** rest has come to entry k of the list, at entry idx of block p. */
    ghost predicate RestingAt(before: map<nat, FileView>, i: nat, hashes: seq<nat>, k: nat, p: nat, c: nat, imax: nat,
                              idx: nat, nextId: nat)
      reads this, Footprint()
    {
      && Valid() && Cursor(i, p, c) && i in before
      && imax == (if p == 0 then INODE_SLOTS else CTD_SLOTS) && idx < imax
      && nextId == Following(layout.chains[Content(i)], p - 1)
      && Files() == before[i := before[i].(slots := Files()[i].slots)]
      && Filling(before[i].slots, Files()[i].slots, hashes, k, p, idx, 0)
    }

    /** One turn of the loop of rest. */
    method RestOne(ghost before: map<nat, FileView>, i: nat, ghost hashes: seq<nat>, ghost k: nat, ghost p: nat,
                   c: nat, imax: nat, idx: nat, nextId: nat, x: nat)
      returns (c': nat, imax': nat, idx': nat, nextId': nat, ghost p': nat)
      requires RestingAt(before, i, hashes, k, p, c, imax, idx, nextId)
      requires k < |hashes| && x == hashes[k]
      modifies this, accounting.Repr
      ensures RestingAt(before, i, hashes, k + 1, p', c', imax', idx', nextId')
    {
      hide accounting.Valid, accounting.Outstanding, Linked, View, Flat, Padded, Filling, Put;
      c', imax', idx', nextId', p' := c, imax, idx + 1, nextId, p;
      ghost var slots := Files()[i].slots;
      SlotsShaped(i);
      FillOne(before[i].slots, slots, hashes, k, p, idx, 0);
      PutSlot(i, c, imax, idx, x, p);
      if idx' >= imax {
        SlotsShaped(i);
        FillNext(before[i].slots, Files()[i].slots, hashes, k + 1, p);
        c', nextId' := Advance(i, c, nextId, imax, p);
        imax', idx', p' := CTD_SLOTS, 0, p + 1;
      }
    }

    /** Writing the list of a file to its blocks. */
    method Rest(i: nat, hashes: seq<nat>)
      requires Valid() && i in disk.inodes
      modifies this, accounting.Repr
      ensures Valid() && i in disk.inodes
      ensures Files() == old(Files())[i := old(Files())[i].(slots := Files()[i].slots)]
      ensures Rested(old(Files())[i].slots, Files()[i].slots, hashes)
    {
      hide accounting.Valid, accounting.Outstanding, Linked, View, Flat, Padded, Filling, Rested;
      ghost var before, was := Files(), Files()[i];
      SlotsShaped(i);
      InodeFields(i);
      InodeChains(i);
      if hashes != [] {
        var idx, imax, c := 0, INODE_SLOTS, i;
        var nextId := disk.inodes[i].nextID;
        ghost var p := 0;
        FillStart(was.slots, was.slots, hashes, [], 0);
        for k := 0 to |hashes|
          invariant RestingAt(before, i, hashes, k, p, c, imax, idx, nextId)
        {
          c, imax, idx, nextId, p := RestOne(before, i, hashes, k, p, c, imax, idx, nextId, hashes[k]);
        }
        SlotsShaped(i);
        RestDone(was.slots, Files()[i].slots, hashes, p, idx);
      } else {
        RestNothing(was.slots);
        SetInode(disk.inodes[i].(ctd := disk.inodes[i].ctd[0 := 0]));
      }
    }

    lemma FillNext(was: seq<seq<nat>>, now: seq<seq<nat>>, hashes: seq<nat>, k: nat, p: nat)
      requires p < |now| && Filling(was, now, hashes, k, p, |now[p]|, 0)
      ensures Filling(was, if p + 1 < |now| then now else now + [NoSlots(CTD_SLOTS)], hashes, k, p + 1, 0, 0)
    {
      if p + 1 < |now| {
        FillOn(was, now, hashes, k, p, 0);
      } else {
        FillGrow(was, now, hashes, k, p, NoSlots(CTD_SLOTS), 0);
      }
    }

    /** Reading the list back: ceil(size / 4096) entries, and the number of references taken on the
        zero hash for entries that are missing. */
    method LoadHashes(i: nat, known: set<nat>) returns (hashList: seq<nat>, zeros: nat)
      requires Valid() && i in disk.inodes
      ensures Valid() && i in disk.inodes
      ensures hashList == Loaded(Flat(Files()[i].slots), ChunksFor(Files()[i].size), known)
      ensures zeros == Missing(Flat(Files()[i].slots), ChunksFor(Files()[i].size), known)
    {
      hide accounting.Valid, accounting.Outstanding, Linked, View, Flat, Loaded, Missing;
      SlotsShaped(i);
      InodeFields(i);
      InodeChains(i);
      ghost var slots, F, n := Files()[i].slots, Flat(Files()[i].slots), ChunksFor(Files()[i].size);
      var numHashes := ChunksFor(disk.inodes[i].size);
      var idx, imax, c := 0, INODE_SLOTS, i;
      var nextId := disk.inodes[i].nextID;
      var hashes: seq<nat> := [];
      ghost var p := 0;
      LoadStart(slots);
      assert [] + Loaded(F, n, known) == Loaded(F, n, known);
      zeros := 0;
      while numHashes > 0
        invariant Cursor(i, p, c) && imax == (if p == 0 then INODE_SLOTS else CTD_SLOTS) && idx < imax
        invariant nextId == Following(layout.chains[Content(i)], p - 1)
        invariant |hashes| + numHashes == n && |hashes| == Start(slots, p) + idx <= |F|
        invariant hashes + Loaded(F[|hashes|..], numHashes, known) == Loaded(F, n, known)
        invariant zeros + Missing(F[|hashes|..], numHashes, known) == Missing(F, n, known)
        decreases numHashes
      {
        ghost var k := |hashes|;
        FlatAt(slots, p, idx);
        LoadStep(F, k, numHashes, hashes, known);
        SlotAt(i, p, c, idx);
        var h := if imax == INODE_SLOTS then disk.inodes[i].ctd[idx] else disk.nodes[c].ctd[idx];
        if h == 0 {
          assert Loaded(F[|hashes|..], numHashes, known) == ZeroHashes(numHashes);
          break;
        }
        hashes := hashes + [if h in known then h else ZERO_HASH];
        zeros := zeros + if h in known then 0 else 1;
        numHashes, idx := numHashes - 1, idx + 1;
        if idx >= imax {
          StartNext(slots, p);
          imax, idx := CTD_SLOTS, 0;
          if nextId == 0 {
            if p > 0 { NextLink(Content(i), p - 1); }
            assert p + 1 == |slots|;
            LoadEnd(F, numHashes, known);
            assert Loaded(F[|hashes|..], numHashes, known) == ZeroHashes(numHashes);
            break;
          }
          c, p := nextId, p + 1;
          NextLink(Content(i), p - 1);
          nextId := disk.nodes[c].nextID;
        }
      }
      if numHashes == 0 { LoadEnd(F, numHashes, known); }
      assert Loaded(F[|hashes|..], numHashes, known) == ZeroHashes(numHashes);
      hashList := hashes + ZeroHashes(numHashes);
      zeros := zeros + numHashes;
    }

    lemma SlotAt(i: nat, p: nat, c: nat, idx: nat)
      requires Linked(disk, layout) && Cursor(i, p, c)
      requires idx < if p == 0 then INODE_SLOTS else CTD_SLOTS
      ensures p < |Files()[i].slots| && idx < |Files()[i].slots[p]|
      ensures if p == 0 then Files()[i].slots[p][idx] == disk.inodes[i].ctd[idx]
              else c in disk.nodes && |disk.nodes[c].ctd| == CTD_SLOTS && Files()[i].slots[p][idx] == disk.nodes[c].ctd[idx]
    {
      hide Linked, NodeChars;
      SlotsShaped(i);
      InodeFields(i);
      if p > 0 { NodeOkIn(disk, layout, Content(i), p - 1); }
    }

    // ---------- metadata strings ----------

    lemma TextIsShaped(i: nat)
      requires Linked(disk, layout) && i in disk.inodes
      ensures Meta(i) in layout.chains && TextShaped(Files()[i].text)
      ensures |Files()[i].text| == |layout.chains[Meta(i)]|
      ensures forall p :: 0 <= p < |layout.chains[Meta(i)]| ==>
                layout.chains[Meta(i)][p] in disk.nodes && disk.nodes[layout.chains[Meta(i)][p]].charContent == Files()[i].text[p]
    {
      HasChains(disk, layout, i);
      var text := Files()[i].text;
      forall p | 0 <= p < |layout.chains[Meta(i)]| ensures layout.chains[Meta(i)][p] in disk.nodes && |text[p]| == CTD_CHARS {
        NodeOkAt(disk, layout, Meta(i), p);
      }
    }

    /** storeMetaDataInINode has come to character k of the string, at place (p, offset). */
    ghost predicate StoringAt(before: map<nat, FileView>, seen: set<nat>, buckets: set<nat>, i: nat, input: seq<Byte>,
                              n: nat, k: nat, p: nat, c: nat, offset: nat)
      reads this, Footprint()
    {
      && Valid() && i in before && i in disk.inodes
      && Meta(i) in layout.chains && p < |layout.chains[Meta(i)]| && c == layout.chains[Meta(i)][p] && offset < CTD_CHARS
      && Files() == before[i := before[i].(text := Files()[i].text, metasize := n)]
      && Filling(before[i].text, Files()[i].text, input, k, p, offset, 0)
      && Tracked(before, seen, buckets, i)
    }

    /** New buckets only come with newly opened ones, for new blocks. */
    ghost predicate Tracked(before: map<nat, FileView>, seen: set<nat>, buckets: set<nat>, i: nat)
      requires i in before && i in disk.inodes
      reads this, accounting
    {
      && seen <= loaded && |before[i].text| <= |Files()[i].text|
      && (accounting.bucketsInUse != buckets ==> seen != loaded && |before[i].text| < |Files()[i].text|)
    }

    /** One turn of its loop. */
    method StoreOne(ghost before: map<nat, FileView>, ghost seen: set<nat>, ghost buckets: set<nat>, i: nat,
                    ghost input: seq<Byte>, ghost n: nat, ghost k: nat, ghost p: nat,
                    c: nat, offset: nat, x: Byte)
      returns (c': nat, offset': nat, ghost p': nat)
      requires StoringAt(before, seen, buckets, i, input, n, k, p, c, offset) && k < |input| && x == input[k]
      modifies this, accounting.Repr
      ensures StoringAt(before, seen, buckets, i, input, n, k + 1, p', c', offset')
    {
      hide accounting.Valid, accounting.Outstanding, Linked, View, Flat, Padded, Filling;
      c', offset', p' := c, offset + 1, p;
      TextIsShaped(i);
      ghost var text := Files()[i].text;
      FillOne(before[i].text, text, input, k, p, offset, 0);
      var chars := disk.nodes[c].charContent[offset := x];
      CharsChanged(disk, layout, i, p, chars);
      disk := WithNode(disk, disk.nodes[c].(charContent := chars));
      if offset' >= CTD_CHARS {
        TextIsShaped(i);
        FillNextText(before[i].text, Files()[i].text, input, k + 1, p);
        c' := NextCtd(c, Meta(i), p);
        offset', p' := 0, p + 1;
      }
    }

    lemma FillNextText(was: seq<seq<Byte>>, now: seq<seq<Byte>>, input: seq<Byte>, k: nat, p: nat)
      requires p < |now| && Filling(was, now, input, k, p, |now[p]|, 0)
      ensures Filling(was, if p + 1 < |now| then now else now + [Zeros(CTD_CHARS)], input, k, p + 1, 0, 0)
    {
      if p + 1 < |now| {
        FillOn(was, now, input, k, p, 0);
      } else {
        FillGrow(was, now, input, k, p, Zeros(CTD_CHARS), 0);
      }
    }

    /** Storing a string on the metadata chain. The recorded size is written once the chain has
        its first block. */
    method StoreMetaData(i: nat, input: seq<Byte>)
      requires Valid() && i in disk.inodes && |input| < 0xFFFF_FFFF
      modifies this, accounting.Repr
      ensures Valid() && i in disk.inodes
      ensures Files() == old(Files())[i := old(Files())[i].(text := Files()[i].text, metasize := |input|)]
      ensures TextStored(old(Files())[i].text, Files()[i].text, input)
      ensures Tracked(old(Files()), old(loaded), old(accounting.bucketsInUse), i)
    {
      hide accounting.Valid, accounting.Outstanding, Linked, View, Flat, Padded, Filling, TextStored;
      ghost var before, was := Files(), Files()[i];
      ghost var seen, buckets := loaded, accounting.bucketsInUse;
      TextIsShaped(i);
      var c := FirstCtd(i, true);
      TextIsShaped(i);
      StoreStart(was.text, Files()[i].text, input);
      InodeFields(i);
      InodeChains(i);
      ghost var slots := Files()[i].slots;
      assert slots[0 := disk.inodes[i].ctd] == slots;
      SetInode(disk.inodes[i].(metasize := |input|));
      var offset := 0;
      ghost var p := 0;
      for k := 0 to |input|
        invariant StoringAt(before, seen, buckets, i, input, |input|, k, p, c, offset)
      {
        c, offset, p := StoreOne(before, seen, buckets, i, input, |input|, k, p, c, offset, input[k]);
      }
      TextIsShaped(i);
      StoreDone(was.text, Files()[i].text, input, p, offset);
    }

    /** fs::storeMetadata: the root's metadata lists the buckets in use, and storing it may take
        new buckets. When the loop ends, loading the metadata gives the lists of the buckets that
        are in use then. */
    method StoreMetadata(i: nat, listing: (set<nat>, set<nat>) -> seq<Byte>, dataBuckets: set<nat>)
      requires Valid() && i in disk.inodes
      requires forall m, d :: var s := listing(m, d); |s| < 0xFFFF_FFFF && s != [] && s[|s| - 1] != 0
      modifies this, accounting.Repr
      ensures Valid() && i in disk.inodes
      ensures Files() == old(Files())[i := old(Files())[i].(text := Files()[i].text, metasize := Files()[i].metasize)]
      ensures Restored(Flat(Files()[i].text), Files()[i].metasize) == listing(accounting.bucketsInUse, dataBuckets)
    {
      hide accounting.Valid, accounting.Outstanding, Linked, View, Flat, TextStored, Restored;
      ghost var before := Files();
      var again := true;
      while again
        invariant Valid() && i in disk.inodes
        invariant Files() == before[i := before[i].(text := Files()[i].text, metasize := Files()[i].metasize)]
        invariant !again ==>
          Restored(Flat(Files()[i].text), Files()[i].metasize) == listing(accounting.bucketsInUse, dataBuckets)
        decreases Max(0, MostBlocks() - |Files()[i].text|), |accounting.bucketsInUse - loaded|, again
      {
        var oldSize := |loaded|;
        ghost var was, seen, buckets := Files()[i].text, loaded, accounting.bucketsInUse;
        var input := listing(accounting.bucketsInUse, dataBuckets);
        StoreMetaData(i, input);
        LoadAfterStore(was, Files()[i].text, input);
        BlocksStored(was, Files()[i].text, input);
        again := |loaded| != oldSize;
        StillLoaded(seen, loaded, accounting.bucketsInUse);
      }
    }

    lemma StillLoaded(seen: set<nat>, loaded: set<nat>, buckets: set<nat>)
      requires seen <= loaded <= buckets
      ensures |loaded| == |seen| ==> loaded == seen
      ensures loaded != seen ==> |buckets - loaded| < |buckets - seen|
    {
      assert |loaded| == |seen| + |loaded - seen| by { assert loaded == seen + (loaded - seen); }
      assert |buckets - seen| == |buckets - loaded| + |loaded - seen| by {
        assert buckets - seen == (buckets - loaded) + (loaded - seen);
      }
    }

    function MostBlocks(): nat {
      0xFFFF_FFFF / 4064 + 1
    }

    lemma BlocksStored(was: seq<seq<Byte>>, now: seq<seq<Byte>>, input: seq<Byte>)
      requires TextStored(was, now, input) && |input| < 0xFFFF_FFFF
      ensures |was| <= |now| && (|was| < |now| ==> |now| <= MostBlocks())
    {
    }

    lemma StoreStart(was: seq<seq<Byte>>, now: seq<seq<Byte>>, input: seq<Byte>)
      requires now == if was == [] then [Zeros(CTD_CHARS)] else was
      ensures Filling(was, now, input, 0, 0, 0, 0)
    {
      FillStart(was, now, input, Zeros(CTD_CHARS), 0);
    }

    /** Loading it: all characters of the chain, without trailing zeros, cut or filled up with
        spaces to the recorded size. */
    method LoadMetaData(i: nat) returns (ret: seq<Byte>)
      requires Valid() && i in disk.inodes
      ensures ret == Restored(Flat(Files()[i].text), Files()[i].metasize)
    {
      hide accounting.Valid, accounting.Outstanding, Linked, View, Flat, Stripped;
      InodeFields(i);
      InodeChains(i);
      TextIsShaped(i);
      ret := [];
      var maxSize := disk.inodes[i].metasize;
      if maxSize > 0 {
        ghost var text := Files()[i].text;
        var metaNode := disk.inodes[i].metaID;
        ghost var p := 0;
        FlatStart(text);
        while true
          invariant p < |text| && metaNode == layout.chains[Meta(i)][p] && ret == Flat(text[..p])
          decreases |text| - p
        {
          FlatNext(text, p);
          ret := ret + disk.nodes[metaNode].charContent;
          NextLink(Meta(i), p);
          if disk.nodes[metaNode].nextID == 0 {
            break;
          }
          metaNode := disk.nodes[metaNode].nextID;
          p := p + 1;
        }
        assert ret == Flat(text);
        while ret != [] && ret[|ret| - 1] == 0
          invariant Stripped(ret) == Stripped(Flat(text))
          decreases |ret|
        {
          StripOne(ret);
          ret := ret[..|ret| - 1];
        }
        StripNone(ret);
        ret := Resized(ret, maxSize);
      }
    }

    lemma FlatStart(text: seq<seq<Byte>>)
      ensures Flat(text[..0]) == [] && text[..|text|] == text
    {
    }

    lemma FlatNext(text: seq<seq<Byte>>, p: nat)
      requires p < |text|
      ensures Flat(text[..p + 1]) == Flat(text[..p]) + text[p]
    {
      assert text[..p + 1] == text[..p] + [text[p]];
      FlatPush(text[..p], text[p]);
    }

    lemma StripOne(s: seq<Byte>)
      requires s != [] && s[|s| - 1] == 0
      ensures Stripped(s) == Stripped(s[..|s| - 1])
    {
    }

    lemma StripNone(s: seq<Byte>)
      requires s == [] || s[|s| - 1] != 0
      ensures Stripped(s) == s
    {
    }

    // ---------- deleting a file ----------

    /** The walk along one chain. */
    method WalkChain(first: nat, ghost c: Chain) returns (ret: seq<nat>)
      requires Valid() && c in layout.chains && c.ino in disk.inodes && first == First(disk.inodes[c.ino], c)
      ensures ret == layout.chains[c]
    {
      hide accounting.Valid, accounting.Outstanding, Linked, View;
      InodeChains(c.ino);
      ret := [];
      if first != 0 {
        var id := first;
        ghost var k := 0;
        while true
          invariant k < |layout.chains[c]| && id == layout.chains[c][k] && ret == layout.chains[c][..k]
          decreases |layout.chains[c]| - k
        {
          NextLink(c, k);
          NodeIsIts(c, k);
          ret := ret + [disk.nodes[id].myID];
          if disk.nodes[id].nextID == 0 {
            break;
          }
          id := disk.nodes[id].nextID;
          k := k + 1;
        }
      }
    }

    lemma NodeIsIts(c: Chain, k: nat)
      requires Linked(disk, layout) && c in layout.chains && k < |layout.chains[c]|
      ensures layout.chains[c][k] in disk.nodes && disk.nodes[layout.chains[c][k]].myID == layout.chains[c][k]
    {
      NodeOkAt(disk, layout, c, k);
    }

    /** setDeletedAndReturnAllUsedInodes: the inode and the blocks of its two chains, each once. */
    method UsedInodes(i: nat) returns (ret: seq<nat>)
      requires Valid() && i in disk.inodes
      ensures ret == BlocksOf(layout, i) && NoDup(ret)
    {
      hide accounting.Valid, accounting.Outstanding, Linked, View, NoDup;
      InodeChains(i);
      InodeFields(i);
      BlocksOfDistinct(disk, layout, i);
      var inode := disk.inodes[i];
      var content := WalkChain(inode.nextID, Content(i));
      var meta := WalkChain(inode.metaID, Meta(i));
      ret := [inode.myID] + content + meta;
    }

    /** Deleting a file gives every block it has fetched back, once, and nothing else. It fails
        only when the allocator aborts the process. */
    method Delete(i: nat) returns (ok: bool)
      requires Valid() && i in disk.inodes
      modifies this, accounting.Repr
      ensures ok ==> Valid() && Files() == old(Files()) - {i}
      ensures ok ==> accounting.Outstanding() == old(accounting.Outstanding()) - Elements(old(BlocksOf(layout, i)))
      ensures !ok ==> |accounting.bucketsInUse| > MAX_BUCKETS
    {
      hide PoolInv, Held, Linked, View, NoDup, Elements, BlocksOf;
      ghost var b, lay := disk, layout;
      DeleteKeepsLinked(disk, layout, i);
      DeleteView(disk, layout, i);
      var inoToDel := UsedInodes(i);
      ok := true;
      NoElements(inoToDel);
      for k := 0 to |inoToDel|
        invariant ok && accounting.Valid() && layout == lay && loaded <= accounting.bucketsInUse
        invariant accounting.Outstanding() == b.inodes.Keys + b.nodes.Keys - Elements(inoToDel[..k])
        invariant disk == Blocks(b.inodes - Elements(inoToDel[..k]), b.nodes - Elements(inoToDel[..k]))
      {
        var li := inoToDel[k];
        DeleteNext(b, lay, i, inoToDel, k);
        disk := Blocks(disk.inodes - {li}, disk.nodes - {li});
        BlocksInUse(li);
        loaded := loaded + {BucketOf(li)};
        ok := accounting.Post(li);
        if !ok {
          return;
        }
        loaded := loaded * accounting.bucketsInUse;
      }
      DeleteAll(b, lay, i, inoToDel);
      layout := DeletedLay(layout, i);
    }
  }

  lemma MinusPush<V>(m: map<nat, V>, s: set<nat>, x: nat)
    ensures m - (s + {x}) == (m - s) - {x}
  {
  }

  lemma NoElements(ids: seq<nat>)
    ensures Elements(ids[..0]) == {}
  {
  }

  lemma NotBefore(ids: seq<nat>, k: nat)
    requires NoDup(ids) && k < |ids|
    ensures ids[k] !in Elements(ids[..k])
  {
  }

  lemma DeleteNext(b: Blocks, lay: Layout, i: nat, ids: seq<nat>, k: nat)
    requires Linked(b, lay) && i in b.inodes && ids == BlocksOf(lay, i) && k < |ids|
    ensures ids[k] in b.inodes.Keys + b.nodes.Keys - Elements(ids[..k])
    ensures Elements(ids[..k + 1]) == Elements(ids[..k]) + {ids[k]}
    ensures b.inodes - Elements(ids[..k + 1]) == (b.inodes - Elements(ids[..k])) - {ids[k]}
    ensures b.nodes - Elements(ids[..k + 1]) == (b.nodes - Elements(ids[..k])) - {ids[k]}
  {
    hide Linked, BlocksOf, NoDup, Elements;
    BlocksOfDistinct(b, lay, i);
    NotBefore(ids, k);
    assert ids[k] in ids;
    assert ids[..k + 1] == ids[..k] + [ids[k]];
    ElementsPush(ids[..k], ids[k]);
    MinusPush(b.inodes, Elements(ids[..k]), ids[k]);
    MinusPush(b.nodes, Elements(ids[..k]), ids[k]);
  }

  lemma DeleteAll(b: Blocks, lay: Layout, i: nat, ids: seq<nat>)
    requires Linked(b, lay) && i in b.inodes && ids == BlocksOf(lay, i)
    ensures ids[..|ids|] == ids
    ensures Deleted(b, lay, i) == Blocks(b.inodes - Elements(ids), b.nodes - Elements(ids))
    ensures (b.inodes.Keys + b.nodes.Keys) - Elements(ids) == Deleted(b, lay, i).inodes.Keys + Deleted(b, lay, i).nodes.Keys
  {
    BlocksOfDistinct(b, lay, i);
    assert Elements(ids) == IdsOf(lay, i);
    assert i in ids by { assert ids[0] == i; }
    assert forall x :: x in Elements(ids) && x in b.inodes ==> x == i;
  }
}
