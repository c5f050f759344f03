/** The data buckets together (bucketInfo of src/modules/filesystem/storage.cpp): bucket objects
    made on demand, each a write-back cache over its own two files. */
module DataBuckets {
  import opened Wrappers
  import opened Pool
  import opened Chunks
  import opened JournalRecords
  import opened Buckets

  /** A bucket object, seen from outside: the records and chunks put last, whether its records
      are in memory, and whether nothing waits to be stored. */
  datatype BucketView = BucketView(held: seq<Slot>, last: seq<Chunk>, inMemory: bool, clean: bool)

  type Views = map<nat, BucketView>

  ghost function ViewOf(k: Bucket): BucketView
    reads k
  {
    BucketView(k.held, k.last, k.hashes != null, k.Clean())
  }

  function SlotOf(index: nat): (slot: nat)
    ensures slot < SLOTS && index == 256 * BucketOf(index) + slot
  {
    index % 256
  }

  /** A record and a chunk were put in a block; nothing else changed, and the records of its
      bucket are in memory. */
  ghost predicate HasPut(was: Views, now: Views, index: nat, record: Slot, chunk: Chunk) {
    var b, slot := BucketOf(index), SlotOf(index);
    && b in now && now == was[b := now[b]]
    && now[b].inMemory && |now[b].held| == SLOTS == |now[b].last|
    && now[b].held[slot] == record && now[b].last[slot] == chunk
    && (b in was && |was[b].held| == SLOTS == |was[b].last| ==>
          now[b].held == was[b].held[slot := record] && now[b].last == was[b].last[slot := chunk])
  }

  ghost predicate HasRecounted(was: Views, now: Views, index: nat, refcnt: nat)
    requires var b := BucketOf(index); b in was && |was[b].held| == SLOTS && was[b].held[SlotOf(index)].Some?
  {
    var b, slot := BucketOf(index), SlotOf(index);
    && b in now && now == was[b := now[b]] && now[b].inMemory == was[b].inMemory
    && now[b].held == was[b].held[slot := Some(was[b].held[slot].value.(refcnt := refcnt))] && now[b].last == was[b].last
  }

  /** Reading changes nothing, and shows the chunk put last where there is a record. */
  ghost predicate HasRead(was: Views, now: Views, index: nat, chunk: Chunk) {
    var b, slot := BucketOf(index), SlotOf(index);
    && b in now && now == was[b := now[b]] && |now[b].held| == SLOTS == |now[b].last|
    && (now[b].held[slot].Some? ==> chunk == now[b].last[slot])
    && (b in was ==> now[b].held == was[b].held && now[b].last == was[b].last && now[b].inMemory == was[b].inMemory)
    && (b in was && was[b].clean ==> now[b].clean)
    && (b !in was ==> now[b].clean)
  }

  lemma PutSeen(was: Views, before: BucketView, after: BucketView, index: nat, record: Slot, chunk: Chunk)
    requires BucketOf(index) in was ==> before == was[BucketOf(index)]
    requires |before.held| == SLOTS == |before.last| && after.inMemory
    requires after.held == before.held[SlotOf(index) := record] && after.last == before.last[SlotOf(index) := chunk]
    ensures HasPut(was, was[BucketOf(index) := before][BucketOf(index) := after], index, record, chunk)
  {
  }

  lemma RecountSeen(was: Views, before: BucketView, after: BucketView, index: nat, refcnt: nat)
    requires BucketOf(index) in was && before == was[BucketOf(index)]
    requires |before.held| == SLOTS && before.held[SlotOf(index)].Some? && after.inMemory == before.inMemory
    requires after.held == before.held[SlotOf(index) := Some(before.held[SlotOf(index)].value.(refcnt := refcnt))]
    requires after.last == before.last
    ensures HasRecounted(was, was[BucketOf(index) := before][BucketOf(index) := after], index, refcnt)
  {
  }

  lemma ReadSeen(was: Views, before: BucketView, after: BucketView, index: nat, chunk: Chunk)
    requires if BucketOf(index) in was then before == was[BucketOf(index)] else before.clean
    requires |before.held| == SLOTS == |before.last|
    requires after.held == before.held && after.last == before.last && after.inMemory == before.inMemory
    requires (before.clean ==> after.clean) && (after.held[SlotOf(index)].Some? ==> chunk == after.last[SlotOf(index)])
    ensures HasRead(was, was[BucketOf(index) := before][BucketOf(index) := after], index, chunk)
  {
  }

  /** What a bucket has to store it can: its records are in memory. */
  ghost predicate StorableAt(view: Views, b: nat)
    requires b in view
  {
    view[b].clean || view[b].inMemory
  }

  ghost predicate Storable(view: Views) {
    forall b :: b in view ==> StorableAt(view, b)
  }

  /** Every bucket but these was stored. */
  ghost function CleanBut(view: Views, todo: set<nat>): Views {
    map b | b in view :: if b in todo then view[b] else view[b].(clean := true)
  }

  lemma AllLeft(view: Views)
    ensures CleanBut(view, view.Keys) == view
  {
  }

  lemma CleanNext(view: Views, todo: set<nat>, b: nat)
    requires b in view && b in todo
    ensures var now := CleanBut(view, todo);
            b in now && now[b] == view[b] && now[b := view[b].(clean := true)] == CleanBut(view, todo - {b})
  {
  }

  /** The number of the bucket an object belongs to. */
  type Owners = map<object, nat>

  ghost predicate Owned(whose: Owners, b: nat, o: object?) {
    o == null || (o in whose && whose[o] == b)
  }

  ghost predicate Extends(whose: Owners, whose': Owners) {
    forall o :: o in whose ==> o in whose' && whose'[o] == whose[o]
  }

  /** The bucket objects agree with what is seen of them, and share nothing. */
  ghost predicate LoadedOk(p: Protocol, whose: Owners, loaded: map<nat, Bucket>, view: Views)
    reads set o | o in whose && whose[o] in loaded
  {
    forall b :: b in loaded ==>
      && Owned(whose, b, loaded[b]) && b in view && Owned(whose, b, loaded[b].files)
      && Owned(whose, b, loaded[b].chunks) && Owned(whose, b, loaded[b].hashes)
      && loaded[b].protocol == p && loaded[b].Valid() && ViewOf(loaded[b]) == view[b]
  }

  /** The files without a bucket object hold their images. */
  ghost predicate ClosedOk(p: Protocol, whose: Owners, closed: map<nat, BucketFiles>, images: map<nat, Image>)
    reads set o | o in whose && whose[o] in closed
  {
    |p.emptyHsh| == DIGEST_SIZE &&
    forall b :: b in closed ==>
      && Owned(whose, b, closed[b]) && b in images && ImageOk(images[b])
      && FilesHold(p, closed[b].chnk, closed[b].hsh, images[b])
  }

  lemma LoadedExtends(p: Protocol, whose: Owners, loaded: map<nat, Bucket>, view: Views, whose': Owners)
    requires LoadedOk(p, whose, loaded, view) && Extends(whose, whose')
    ensures LoadedOk(p, whose', loaded, view)
  {
    hide Bucket.Valid, ViewOf;
  }

  lemma LoadedLess(p: Protocol, whose: Owners, loaded: map<nat, Bucket>, view: Views, b: nat)
    requires LoadedOk(p, whose, loaded, view)
    ensures LoadedOk(p, whose, loaded - {b}, view - {b})
  {
    hide Bucket.Valid, ViewOf;
  }

  lemma LoadedAt(p: Protocol, whose: Owners, loaded: map<nat, Bucket>, view: Views, b: nat)
    requires LoadedOk(p, whose, loaded, view) && b in loaded
    ensures var k := loaded[b];
            && Owned(whose, b, k) && Owned(whose, b, k.files) && Owned(whose, b, k.chunks) && Owned(whose, b, k.hashes)
            && k.protocol == p && k.Valid() && b in view && ViewOf(k) == view[b]
  {
    hide Bucket.Valid, ViewOf;
  }

  lemma LoadedPush(p: Protocol, whose: Owners, loaded: map<nat, Bucket>, view: Views, b: nat, k: Bucket)
    requires LoadedOk(p, whose, loaded - {b}, view - {b})
    requires Owned(whose, b, k) && Owned(whose, b, k.files) && Owned(whose, b, k.chunks) && Owned(whose, b, k.hashes)
    requires k.protocol == p && k.Valid()
    ensures LoadedOk(p, whose, loaded[b := k], view[b := ViewOf(k)])
  {
    hide Bucket.Valid, ViewOf;
    forall c | c in loaded && c != b ensures c in loaded - {b} && (loaded - {b})[c] == loaded[c] {
    }
  }

  lemma ClosedExtends(p: Protocol, whose: Owners, closed: map<nat, BucketFiles>, images: map<nat, Image>, whose': Owners)
    requires ClosedOk(p, whose, closed, images) && Extends(whose, whose')
    ensures ClosedOk(p, whose', closed, images)
  {
    hide FilesHold;
  }

  lemma ClosedAt(p: Protocol, whose: Owners, closed: map<nat, BucketFiles>, images: map<nat, Image>, b: nat)
    requires ClosedOk(p, whose, closed, images) && b in closed
    ensures |p.emptyHsh| == DIGEST_SIZE && b in images && ImageOk(images[b])
    ensures FilesHold(p, closed[b].chnk, closed[b].hsh, images[b]) && Owned(whose, b, closed[b])
    ensures ClosedOk(p, whose, closed - {b}, images)
  {
    hide FilesHold;
  }

  lemma ClosedPush(p: Protocol, whose: Owners, closed: map<nat, BucketFiles>, images: map<nat, Image>,
                   b: nat, f: BucketFiles, image: Image)
    requires |p.emptyHsh| == DIGEST_SIZE && ClosedOk(p, whose, closed, images) && b !in closed
    requires Owned(whose, b, f) && ImageOk(image) && FilesHold(p, f.chnk, f.hsh, image)
    ensures ClosedOk(p, whose, closed[b := f], images[b := image])
  {
    hide FilesHold, ImageOk;
  }

  class DataBuckets {
    const protocol: Protocol
    var loaded: map<nat, Bucket>
    var closed: map<nat, BucketFiles>  // files of the numbers without a bucket object
    ghost var images: map<nat, Image>  // what they hold
    ghost var view: Views
    ghost var whose: Owners

    ghost predicate Valid()
      reads this, whose.Keys
    {
      && Decrypts(protocol) && this !in whose && loaded.Keys == view.Keys && loaded.Keys !! closed.Keys
      && LoadedOk(protocol, whose, loaded, view) && ClosedOk(protocol, whose, closed, images)
    }

    constructor (protocol: Protocol)
      requires Decrypts(protocol)
      ensures Valid() && view == map[] && this.protocol == protocol && fresh(whose.Keys)
    {
      this.protocol, loaded, closed := protocol, map[], map[];
      images, whose, view := map[], map[], map[];
    }

    /** getBucket: the bucket object of a number, made over its files when there is none. */
    method GetBucket(b: nat) returns (k: Bucket)
      requires Valid()
      modifies this
      ensures Valid() && b in loaded && loaded[b] == k && view == old(view)[b := ViewOf(k)]
      ensures b in old(view) ==> ViewOf(k) == old(view)[b] && k == old(loaded)[b]
      ensures b !in old(view) ==> !ViewOf(k).inMemory && ViewOf(k).clean && fresh(k) && k.chunks == null && k.hashes == null
      ensures Extends(old(whose), whose) && fresh(whose.Keys - old(whose.Keys))
    {
      hide Bucket.Valid, FilesHold, Decrypts, ImageOk, LoadedOk, ClosedOk;
      if b in loaded {
        k := loaded[b];
        LoadedAt(protocol, whose, loaded, view, b);
      } else {
        NewFiles(b);
        k := Open(b);
      }
    }

    /** The files of a number that was never stored do not exist. */
    method NewFiles(b: nat)
      requires Valid() && b !in loaded
      modifies this
      ensures Valid() && loaded == old(loaded) && view == old(view) && b in closed
      ensures Extends(old(whose), whose) && fresh(whose.Keys - old(whose.Keys))
    {
      hide Bucket.Valid, FilesHold, ImageOk, LoadedOk, ClosedOk;
      if b !in closed {
        var files := new BucketFiles();
        ghost var empty := Image(seq(SLOTS, _ => ZERO_CHUNK), seq(SLOTS, _ => None));
        EmptyImage(protocol, empty);
        ghost var was := whose;
        whose := whose[files := b];
        LoadedExtends(protocol, was, loaded, view, whose);
        ClosedExtends(protocol, was, closed, images, whose);
        ClosedPush(protocol, whose, closed, images, b, files, empty);
        closed := closed[b := files];
        images := images[b := empty];
      }
    }

    method Open(b: nat) returns (k: Bucket)
      requires Valid() && b in closed
      modifies this
      ensures Valid() && loaded == old(loaded)[b := k] && view == old(view)[b := ViewOf(k)]
      ensures !ViewOf(k).inMemory && ViewOf(k).clean && fresh(k) && k.chunks == null && k.hashes == null
      ensures Extends(old(whose), whose) && fresh(whose.Keys - old(whose.Keys))
    {
      hide Bucket.Valid, FilesHold, Decrypts, ImageOk, LoadedOk, ClosedOk, KeptAll;
      ClosedAt(protocol, whose, closed, images, b);
      LoadedLess(protocol, whose, loaded, view, b);
      k := new Bucket(protocol, closed[b], images[b]);
      ghost var was := whose;
      whose := whose[k := b];
      LoadedExtends(protocol, was, loaded - {b}, view - {b}, whose);
      ClosedExtends(protocol, was, closed - {b}, images, whose);
      LoadedPush(protocol, whose, loaded, view, b, k);
      loaded := loaded[b := k];
      closed := closed - {b};
      view := view[b := ViewOf(k)];
    }

    ghost function Mine(b: nat): set<object>
      reads this
    {
      set o | o in whose && whose[o] == b
    }

    /** The bucket object of a number, to work on: nothing else depends on its objects. */
    lemma Separate(b: nat)
      requires Valid() && b in loaded
      ensures var k := loaded[b];
              && k.Valid() && k.protocol == protocol && b in view && ViewOf(k) == view[b]
              && Owned(whose, b, k) && Owned(whose, b, k.files) && Owned(whose, b, k.chunks) && Owned(whose, b, k.hashes)
              && LoadedOk(protocol, whose, loaded - {b}, view - {b})
    {
      hide Bucket.Valid, Decrypts, LoadedOk, ClosedOk, ViewOf;
      LoadedAt(protocol, whose, loaded, view, b);
      LoadedLess(protocol, whose, loaded, view, b);
    }

    /** After an operation on the bucket object of a number: its new arrays belong to it. */
    ghost method Settle(b: nat, k: Bucket)
      requires Decrypts(protocol) && this !in whose && loaded.Keys == view.Keys && loaded.Keys !! closed.Keys
      requires LoadedOk(protocol, whose, loaded - {b}, view - {b}) && ClosedOk(protocol, whose, closed, images)
      requires b in loaded && loaded[b] == k && k.Valid() && k.protocol == protocol
      requires Owned(whose, b, k) && Owned(whose, b, k.files)
      requires k.chunks !in whose || Owned(whose, b, k.chunks)
      requires k.hashes !in whose || Owned(whose, b, k.hashes)
      modifies `view, `whose
      ensures Valid() && view == old(view)[b := ViewOf(k)]
      ensures Extends(old(whose), whose) && forall o :: o in whose ==> o in old(whose) || o == k.chunks || o == k.hashes
    {
      hide Bucket.Valid, FilesHold, Decrypts, ImageOk, LoadedOk, ClosedOk, ViewOf;
      var was := whose;
      if k.chunks != null { whose := whose[k.chunks := b]; }
      if k.hashes != null { whose := whose[k.hashes := b]; }
      LoadedExtends(protocol, was, loaded - {b}, view - {b}, whose);
      ClosedExtends(protocol, was, closed, images, whose);
      LoadedPush(protocol, whose, loaded, view, b, k);
      assert loaded[b := k] == loaded;
      view := view[b := ViewOf(k)];
    }

    /** getBucket, to work on the bucket object. */
    method UseBucket(b: nat) returns (k: Bucket)
      requires Valid()
      modifies this
      ensures Valid() && b in loaded && loaded[b] == k && view == old(view)[b := ViewOf(k)]
      ensures b in old(view) ==> ViewOf(k) == old(view)[b]
      ensures b !in old(view) ==> !ViewOf(k).inMemory && ViewOf(k).clean
      ensures Extends(old(whose), whose) && fresh(whose.Keys - old(whose.Keys))
      ensures k.Valid() && k.protocol == protocol && LoadedOk(protocol, whose, loaded - {b}, view - {b})
      ensures Owned(whose, b, k) && Owned(whose, b, k.files) && Owned(whose, b, k.chunks) && Owned(whose, b, k.hashes)
      ensures k in old(Mine(b)) || fresh(k)
      ensures k.chunks == null || k.chunks in old(Mine(b))
      ensures k.hashes == null || k.hashes in old(Mine(b))
    {
      hide Bucket.Valid, FilesHold, Decrypts, ImageOk, LoadedOk, ClosedOk, ViewOf;
      if b in loaded { Separate(b); }
      k := GetBucket(b);
      Separate(b);
    }

    /** putHashAndChunk of a block; a null record with a zeroed chunk clears it. */
    method PutBlock(index: nat, record: Slot, chunk: Chunk)
      requires Valid() && SlotFits(record)
      modifies this, Mine(BucketOf(index))
      ensures Valid() && HasPut(old(view), view, index, record, chunk)
      ensures Extends(old(whose), whose) && fresh(whose.Keys - old(whose.Keys))
    {
      hide Bucket.Consistent, Decrypts, FilesHold, ImageOk, LoadedOk, ClosedOk, SlotFits, HasPut;
      ghost var was := view;
      var k := UseBucket(BucketOf(index));
      ghost var before := ViewOf(k);
      k.PutHashAndChunk(SlotOf(index), record, chunk);
      PutSeen(was, before, ViewOf(k), index, record, chunk);
      Settle(BucketOf(index), k);
    }

    /** A hash object changes its count and tells its bucket. */
    method RecountBlock(index: nat, refcnt: nat)
      requires Valid() && refcnt < Range(8) / 2
      requires var b := BucketOf(index);
               b in view && view[b].inMemory && |view[b].held| == SLOTS && view[b].held[SlotOf(index)].Some?
      modifies this, Mine(BucketOf(index))
      ensures Valid() && HasRecounted(old(view), view, index, refcnt)
      ensures Extends(old(whose), whose) && fresh(whose.Keys - old(whose.Keys))
    {
      hide Bucket.Consistent, Decrypts, FilesHold, ImageOk, LoadedOk, ClosedOk, SlotFits, Range, HasRecounted;
      ghost var was := view;
      var k := UseBucket(BucketOf(index));
      ghost var before := ViewOf(k);
      k.Recount(SlotOf(index), refcnt);
      RecountSeen(was, before, ViewOf(k), index, refcnt);
      Settle(BucketOf(index), k);
    }

    /** getBucket and hashChanged, as decRefCnt ends with. */
    method MarkBucket(b: nat)
      requires Valid()
      modifies this, Mine(b)
      ensures Valid() && b in view && view == old(view)[b := view[b]] && !view[b].clean
      ensures b in old(view) ==> view[b] == old(view)[b].(clean := false)
      ensures b !in old(view) ==> !view[b].inMemory
      ensures Extends(old(whose), whose) && fresh(whose.Keys - old(whose.Keys))
    {
      hide Bucket.Consistent, Decrypts, FilesHold, ImageOk, LoadedOk, ClosedOk;
      var k := UseBucket(b);
      k.HashChanged();
      Settle(b, k);
    }

    /** getChunk of a block. */
    method ReadBlock(index: nat) returns (chunk: Chunk)
      requires Valid()
      modifies this, Mine(BucketOf(index))
      ensures Valid() && HasRead(old(view), view, index, chunk)
      ensures Extends(old(whose), whose) && fresh(whose.Keys - old(whose.Keys))
    {
      hide Bucket.Consistent, Decrypts, FilesHold, ImageOk, LoadedOk, ClosedOk, HasRead;
      ghost var was := view;
      var k := UseBucket(BucketOf(index));
      ghost var before := ViewOf(k);
      chunk := k.GetChunk(SlotOf(index));
      ReadSeen(was, before, ViewOf(k), index, chunk);
      Settle(BucketOf(index), k);
    }

    /** removeBucket: the bucket object goes, and its destructor stores what is in memory. */
    method RemoveBucket(b: nat) returns (ok: bool)
      requires Valid()
      modifies this, Mine(b)
      ensures ok ==> Valid() && view == old(view) - {b}
      ensures b in old(view) && (old(view)[b].clean || old(view)[b].inMemory) ==> ok
      ensures b !in old(view) ==> ok
      ensures whose == old(whose)
    {
      ok := true;
      if b in loaded {
        ok := CloseBucket(b);
      }
    }

    method CloseBucket(b: nat) returns (ok: bool)
      requires Valid() && b in loaded
      modifies this, Mine(b)
      ensures ok ==> Valid() && view == old(view) - {b}
      ensures old(view)[b].clean || old(view)[b].inMemory ==> ok
      ensures whose == old(whose)
    {
      hide Bucket.Consistent, FilesHold, ImageOk, LoadedOk, ClosedOk;
      Separate(b);
      var k := loaded[b];
      ok := k.Close();
      if ok {
        ClosedPush(protocol, whose, closed, images, b, k.files, k.image);
        closed := closed[b := k.files];
        images := images[b := k.image];
        loaded := loaded - {b};
        view := view - {b};
      }
    }

    /** store(true) of one bucket object. */
    method StoreBucket(b: nat) returns (ok: bool)
      requires Valid() && b in loaded
      modifies `view, `whose, loaded[b], loaded[b].files
      ensures ok <==> old(view)[b].clean || old(view)[b].inMemory
      ensures ok ==> Valid() && view == old(view)[b := old(view)[b].(clean := true)] && whose == old(whose)
    {
      hide Bucket.Consistent, Decrypts, FilesHold, ImageOk, LoadedOk, ClosedOk;
      Separate(b);
      ok := loaded[b].Store(true);
      if ok {
        Settle(b, loaded[b]);
      }
    }

    /** The part of storeAllData for the data buckets. The result is false when a bucket has
        something to store without its records in memory, which aborts the process. */
    method StoreAll() returns (ok: bool)
      requires Valid()
      modifies this, whose.Keys
      ensures ok <==> Storable(old(view))
      ensures ok ==> Valid() && view == CleanBut(old(view), {}) && whose == old(whose)
    {
      hide LoadedOk, ClosedOk, Decrypts, Bucket.Valid, CleanBut;
      var todo := loaded.Keys;
      ok := true;
      AllLeft(view);
      while todo != {}
        invariant Valid() && whose == old(whose) && loaded == old(loaded) && todo <= loaded.Keys
        invariant view == CleanBut(old(view), todo)
        invariant forall b :: b in old(view) && b !in todo ==> StorableAt(old(view), b)
      {
        var b :| b in todo;
        Separate(b);
        CleanNext(old(view), todo, b);
        ok := StoreBucket(b);
        todo := todo - {b};
        if !ok {
          return;
        }
      }
    }
  }
}
