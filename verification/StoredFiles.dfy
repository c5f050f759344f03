/** Files over data buckets: what a session asks of the chunk store, asked of real bucket objects
    with storeAllData in between. */
module StoredFiles {
  import opened Pool
  import opened Chunks
  import opened Buckets
  import opened BlockEvents
  import opened DataBuckets
  import opened DataBucketRuns
  import opened StoreState
  import opened FlatFiles
  import opened FileSystem
  import FS = FileSystem
  import opened Dedup

  /** A live block as the buckets must show it, and the hash it belongs to. */
  ghost predicate Matches(live: map<nat, Entry>, h: Hash)
    reads h
  {
    && h.bucketIndex in live && live[h.bucketIndex].digest == h.digest && live[h.bucketIndex].chunk == h.content
    && (!h.pinned ==> live[h.bucketIndex].refcnt == h.refcnt)
  }

  /** In every state between operations, what was asked of the data buckets so far is a legal
      sequence of calls, and the blocks it leaves live are those of the live hashes, with their
      digests, their chunks and, but for the pinned zero hash, their counts. */
  lemma CallsMatchHashes(fs: FileSystem)
    requires fs.Valid()
    ensures Legal(fs.store.view.events)
    ensures Live(fs.store.view.events).Keys == fs.store.accounting.Outstanding()
    ensures forall h :: h in fs.store.view.table ==> Matches(Live(fs.store.view.events), h)
  {
    hide Legal, Live, Counted, AllIntact, Indexed, Claims;
    var s := fs.store.view;
    forall h | h in s.table ensures Matches(Live(s.events), h) {
      assert TracedAt(s, Live(s.events), h.bucketIndex);
    }
  }

  /** The bucket of a hash has its records in memory, and holds the hash's record and chunk. */
  ghost predicate ShowsHash(view: Views, h: Hash)
    reads h
  {
    var b, slot := BucketOf(h.bucketIndex), SlotOf(h.bucketIndex);
    && b in view && view[b].inMemory && |view[b].held| == SLOTS == |view[b].last|
    && view[b].last[slot] == h.content && view[b].held[slot].Some?
    && view[b].held[slot].value.bucket == h.bucketIndex && view[b].held[slot].value.digest == h.digest
    && (!h.pinned ==> view[b].held[slot].value.refcnt == h.refcnt)
  }

  lemma HashesShown(view: Views, live: map<nat, Entry>, hashes: set<Hash>)
    requires Shows(view, live) && forall h :: h in hashes ==> Matches(live, h)
    ensures forall h :: h in hashes ==> ShowsHash(view, h)
  {
    forall h | h in hashes ensures ShowsHash(view, h) {
      assert ShowsAt(view, h.bucketIndex, live[h.bucketIndex]);
    }
  }

  /** The calls a session made, made to bucket objects with any number of storeAllData and loads
      in between: nothing aborts, every live hash has its record and chunk in its bucket, and
      each slot of each file reads its chunk from there. */
  method Replay(fs: FileSystem, protocol: Protocol, turns: seq<Turn>, i: nat, k: nat)
    returns (d: DataBuckets, chunk: Chunk, ok: bool)
    requires fs.Valid() && Decrypts(protocol) && Calls(turns) == fs.store.view.events
    requires forall n :: 0 <= n < |turns| && turns[n].Call? ==> Fits(turns[n].event)
    requires i < |fs.files| && k < |fs.files[i].hashList|
    ensures ok && chunk == fs.files[i].hashList[k].content
    ensures d.Valid() && Storable(d.view)
    ensures forall h :: h in fs.store.view.table ==> ShowsHash(d.view, h)
  {
    hide fs.Valid, Storable, Shows, ShowsHash, Fits, Live, Legal, Calls, Decrypts, DataBuckets.Valid;
    ghost var live, hashes := Live(fs.store.view.events), fs.store.view.table.Keys;
    var h := fs.files[i].hashList[k];
    CallsMatchHashes(fs);
    SlotInTable(fs, i, k);
    var chunks;
    d, chunks, ok := DataBucketRuns.Run(protocol, turns);
    ghost var view := d.view;
    chunk := d.ReadBlock(h.bucketIndex);
    ReadShows(view, d.view, live, h.bucketIndex, chunk);
    HashesShown(d.view, live, hashes);
  }

  lemma SlotInTable(fs: FileSystem, i: nat, k: nat)
    requires fs.Valid() && i < |fs.files| && k < |fs.files[i].hashList|
    ensures fs.files[i].hashList[k] in fs.store.view.table
  {
    SlotClaims(ListsOf(fs.files), i, k);
  }

  // ---------- during a session ----------

  predicate AllFit(calls: seq<Event>) {
    forall k :: 0 <= k < |calls| ==> Fits(calls[k])
  }

  /** The calls from one on, made to the data buckets. The result is false when one does not fit a
      record. */
  method Serve(d: DataBuckets, calls: seq<Event>, from: nat) returns (ok: bool)
    requires d.Valid() && Storable(d.view) && Legal(calls) && from <= |calls|
    requires Shows(d.view, Live(calls[..from])) && AllFit(calls[..from])
    modifies d, d.whose.Keys
    ensures ok <==> AllFit(calls)
    ensures ok ==> d.Valid() && Storable(d.view) && Shows(d.view, Live(calls))
    ensures fresh(d.whose.Keys - old(d.whose.Keys))
  {
    hide d.Valid, Storable, Shows, Legal, Live, Fits;
    for k := from to |calls|
      invariant d.Valid() && Storable(d.view) && Shows(d.view, Live(calls[..k])) && AllFit(calls[..k])
      invariant fresh(d.whose.Keys - old(d.whose.Keys))
    {
      if !Fits(calls[k]) {
        return false;
      }
      LegalPrefix(calls, k);
      ok := Do(d, calls[k], Live(calls[..k]));
    }
    assert calls[..|calls|] == calls;
    ok := true;
  }

  /** The file system and its data buckets, between operations: every call was made, and they have
      no objects in common. */
  ghost predicate Joined(fs: FileSystem, d: DataBuckets)
    reads fs, fs.store, fs.store.accounting.Repr, fs.store.view.table.Keys, fs.files, d, d.whose.Keys
  {
    && fs.Valid() && d.Valid() && Storable(d.view) && Shows(d.view, Live(fs.store.calls)) && AllFit(fs.store.calls)
    && Separate(fs, d)
  }

  ghost predicate Separate(fs: FileSystem, d: DataBuckets)
    reads fs, fs.store, d
  {
    && fs !in d.whose && fs.store !in d.whose
    && (forall o :: o in fs.store.accounting.Repr ==> o !in d.whose)
    && (forall h :: h in fs.store.view.table.Keys ==> h !in d.whose)
    && (forall f :: f in fs.files ==> f !in d.whose)
  }

  /** An operation on a file, or storeAllData. */
  datatype StoredOp = On(op: Op) | StoreData

  /** One of them. The result is false when the allocator aborts the process, or when a count, an
      index or a digest no longer fits its record. */
  method ApplyStored(fs: FileSystem, d: DataBuckets, op: StoredOp) returns (ok: bool)
    requires Joined(fs, d) && (op.On? ==> op.op.Names(|fs.files|) && !Aborts(FlatsOf(fs.files), op.op))
    modifies fs, fs.files, fs.store, fs.store.accounting.Repr, fs.store.view.table.Keys, d, d.whose.Keys
    ensures ok ==> Joined(fs, d)
    ensures ok ==> FlatsOf(fs.files) == if op.On? then FS.After(old(FlatsOf(fs.files)), op.op) else old(FlatsOf(fs.files))
    ensures !ok ==> |fs.store.accounting.bucketsInUse| > MAX_BUCKETS || !AllFit(fs.store.calls)
    ensures ok ==> forall f :: f in fs.files && f !in old(fs.files) ==> fresh(f)
    ensures ok ==> forall h :: h in fs.store.view.table && h !in old(fs.store.view.table) ==> fresh(h)
    ensures fresh(d.whose.Keys - old(d.whose.Keys))
  {
    hide Joined, Aborts, FlatsOf, AllFit;
    match op
    case On(fileOp) => ok := ApplyOn(fs, d, fileOp);
    case StoreData =>
      StoreNow(fs, d);
      ok := true;
  }

  method ApplyOn(fs: FileSystem, d: DataBuckets, op: Op) returns (ok: bool)
    requires Joined(fs, d) && op.Names(|fs.files|) && !Aborts(FlatsOf(fs.files), op)
    modifies fs, fs.files, fs.store, fs.store.accounting.Repr, fs.store.view.table.Keys, d, d.whose.Keys
    ensures ok ==> Joined(fs, d) && FlatsOf(fs.files) == FS.After(old(FlatsOf(fs.files)), op)
    ensures !ok ==> |fs.store.accounting.bucketsInUse| > MAX_BUCKETS || !AllFit(fs.store.calls)
    ensures ok ==> forall f :: f in fs.files && f !in old(fs.files) ==> fresh(f)
    ensures ok ==> forall h :: h in fs.store.view.table && h !in old(fs.store.view.table) ==> fresh(h)
    ensures fresh(d.whose.Keys - old(d.whose.Keys))
  {
    hide fs.Valid, d.Valid, Storable, Shows, Live, Legal, Aborts, FlatsOf, AllFit, FS.After;
    CallsLegal(fs);
    var before := fs.store.calls;
    ok := fs.Apply(op);
    if ok {
      CallsLegal(fs);
      assert fs.store.calls[..|before|] == before;
      ok := Serve(d, fs.store.calls, |before|);
    }
  }

  lemma CallsLegal(fs: FileSystem)
    requires fs.Valid()
    ensures fs.store.view.events == fs.store.calls && Legal(fs.store.calls)
  {
    hide Legal, Live;
  }

  method StoreNow(fs: FileSystem, d: DataBuckets)
    requires Joined(fs, d)
    modifies d, d.whose.Keys
    ensures Joined(fs, d) && d.whose.Keys == old(d.whose.Keys)
    ensures fs.files == old(fs.files) && FlatsOf(fs.files) == old(FlatsOf(fs.files)) && fs.store.view == old(fs.store.view)
  {
    hide fs.Valid, d.Valid, Storable, Shows, Live, AllFit;
    ghost var view := d.view;
    StoreBeside(fs, d);
    StoreShows(view, Live(fs.store.calls));
  }

  /** storeAllData leaves the objects of the file system alone. */
  method StoreBeside(fs: FileSystem, d: DataBuckets)
    requires fs.Valid() && d.Valid() && Storable(d.view) && Separate(fs, d)
    modifies d, d.whose.Keys
    ensures fs.Valid() && d.Valid() && d.view == CleanBut(old(d.view), {}) && d.whose == old(d.whose) && Separate(fs, d)
    ensures fs.files == old(fs.files) && FlatsOf(fs.files) == old(FlatsOf(fs.files))
    ensures fs.store.view == old(fs.store.view) && fs.store.calls == old(fs.store.calls)
  {
    hide fs.Valid, d.Valid, Storable;
    var ok := d.StoreAll();
  }

  /** In every state between operations each live hash has its record and its chunk in its bucket. */
  lemma JoinedShows(fs: FileSystem, d: DataBuckets)
    requires Joined(fs, d)
    ensures forall h :: h in fs.store.view.table ==> ShowsHash(d.view, h)
  {
    hide fs.Valid, d.Valid, Storable, Shows, ShowsHash, Live, AllFit;
    CallsMatchHashes(fs);
    CallsLegal(fs);
    HashesShown(d.view, Live(fs.store.calls), fs.store.view.table.Keys);
  }

  /** The operations on files among these. */
  function FileOps(ops: seq<StoredOp>): seq<Op> {
    if ops == [] then [] else (if ops[0].On? then [ops[0].op] else []) + FileOps(ops[1..])
  }

  /** The operations of a run are those of its parts, in order; a store is none. */
  lemma {:induction false} FileOpsOf(a: seq<StoredOp>, b: seq<StoredOp>)
    ensures FileOps(a + b) == FileOps(a) + FileOps(b)
    ensures forall op :: FileOps([On(op)]) == [op]
    ensures FileOps([]) == [] && FileOps([StoredOp.StoreData]) == []
  {
    if a == [] {
      assert a + b == b;
    } else {
      FileOpsOf(a[1..], b);
      assert (a + b)[0] == a[0] && (a + b)[1..] == a[1..] + b;
    }
  }

  lemma FileOpsNext(ops: seq<StoredOp>, n: nat)
    requires n < |ops|
    ensures FileOps(ops[n..]) == (if ops[n].On? then [ops[n].op] else []) + FileOps(ops[n + 1..])
  {
    assert ops[n..][0] == ops[n] && ops[n..][1..] == ops[n + 1..];
  }

  /** What one operation does to the run that is left. */
  lemma RunOne(flats: seq<FlatFile>, ops: seq<StoredOp>, n: nat)
    requires n < |ops| && Runs(flats, FileOps(ops[n..]))
    ensures ops[n].On? ==>
              && ops[n].op.Names(|flats|) && !Aborts(flats, ops[n].op)
              && Runs(FS.After(flats, ops[n].op), FileOps(ops[n + 1..]))
              && AfterAll(flats, FileOps(ops[n..])) == AfterAll(FS.After(flats, ops[n].op), FileOps(ops[n + 1..]))
    ensures !ops[n].On? ==> FileOps(ops[n..]) == FileOps(ops[n + 1..])
  {
    hide Aborts, FS.After, FileOps;
    FileOpsNext(ops, n);
    if ops[n].On? {
      var left := FileOps(ops[n..]);
      assert left[0] == ops[n].op && left[1..] == FileOps(ops[n + 1..]);
    } else {
      assert FileOps(ops[n..]) == FileOps(ops[n + 1..]);
    }
  }

  /** A session on a new file system with storeAllData anywhere between its operations: the files
      are what the reference model makes of them, the data buckets hold every live chunk with its
      record, and no store aborts.  Only the allocator can end it, or a count, an index or a digest
      that no longer fits its record. */
  method Session(sha: Chunk -> Digest, protocol: Protocol, ops: seq<StoredOp>)
    returns (fs: FileSystem, d: DataBuckets, ok: bool)
    requires CollisionFree(sha) && Decrypts(protocol) && Runs([], FileOps(ops))
    ensures ok ==> Joined(fs, d) && FlatsOf(fs.files) == AfterAll([], FileOps(ops))
    ensures !ok ==> |fs.store.accounting.bucketsInUse| > MAX_BUCKETS || !AllFit(fs.store.calls)
  {
    hide Joined, Runs, AfterAll, FlatsOf, FileOps, CollisionFree, Decrypts, AllFit, Aborts, FS.After;
    fs, d, ok := NewStored(sha, protocol);
    if !ok {
      return;
    }
    assert ops[0..] == ops;
    for n := 0 to |ops|
      invariant ok && fresh(fs) && fresh(fs.store) && fresh(fs.store.accounting.Repr) && fresh(d) && fresh(d.whose.Keys)
      invariant (forall i :: 0 <= i < |fs.files| ==> fresh(fs.files[i])) && fresh(fs.store.view.table.Keys)
      invariant Joined(fs, d) && Runs(FlatsOf(fs.files), FileOps(ops[n..]))
      invariant AfterAll(FlatsOf(fs.files), FileOps(ops[n..])) == AfterAll([], FileOps(ops))
    {
      RunOne(FlatsOf(fs.files), ops, n);
      ghost var files := fs.files;
      ok := ApplyStored(fs, d, ops[n]);
      if !ok {
        return;
      }
      forall i | 0 <= i < |fs.files| ensures fs.files[i] in files || fresh(fs.files[i]) {
        assert fs.files[i] in fs.files;
      }
    }
    RunOver(FlatsOf(fs.files), ops);
  }

  lemma RunOver(flats: seq<FlatFile>, ops: seq<StoredOp>)
    requires Runs(flats, FileOps(ops[|ops|..]))
    ensures AfterAll(flats, FileOps(ops[|ops|..])) == flats
  {
  }

  /** mkfs: the block of the zero chunk is put in its bucket. */
  method NewStored(sha: Chunk -> Digest, protocol: Protocol) returns (fs: FileSystem, d: DataBuckets, ok: bool)
    requires CollisionFree(sha) && Decrypts(protocol)
    ensures fresh(fs) && fresh(fs.store) && fresh(fs.store.Footprint()) && fresh(d) && fresh(d.whose.Keys) && fs.files == []
    ensures ok ==> Joined(fs, d) && FlatsOf(fs.files) == []
    ensures !ok ==> !AllFit(fs.store.calls)
  {
    hide fs.Valid, d.Valid, Storable, Shows, Live, Legal, CollisionFree, Decrypts, AllFit;
    fs := new FileSystem(sha);
    d := new DataBuckets(protocol);
    CallsLegal(fs);
    NothingServed(d.view, fs.store.calls);
    NoFlats(fs.files);
    ok := Serve(d, fs.store.calls, 0);
  }

  lemma NothingServed(view: Views, calls: seq<Event>)
    requires view == map[]
    ensures Storable(view) && Shows(view, Live(calls[..0])) && AllFit(calls[..0])
  {
  }
}
