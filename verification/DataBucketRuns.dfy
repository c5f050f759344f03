/** Runs of the data buckets: whatever the chunk store asks of them, with storeAllData in
    between, every live block shows its record and its chunk, and no store aborts. */
module DataBucketRuns {
  import opened Wrappers
  import opened Pool
  import opened Chunks
  import opened JournalRecords
  import opened Buckets
  import opened BlockEvents
  import opened DataBuckets

  /** The record of a live block. */
  function RecordOf(index: nat, e: Entry): Slot
    requires e.refcnt >= 0
  {
    Some(HashRecord(index, e.refcnt, e.digest))
  }

  /** The bucket of a live block has its records in memory, and shows the block. */
  ghost predicate ShowsAt(view: Views, index: nat, e: Entry) {
    var b := BucketOf(index);
    && b in view && view[b].inMemory && |view[b].held| == SLOTS == |view[b].last| && e.refcnt >= 0
    && view[b].held[SlotOf(index)] == RecordOf(index, e) && view[b].last[SlotOf(index)] == e.chunk
  }

  ghost predicate Shows(view: Views, live: map<nat, Entry>) {
    forall i :: i in live ==> ShowsAt(view, i, live[i])
  }

  /** The fields fit their integer types. */
  predicate Fits(e: Event) {
    match e
    case Put(i, digest, refcnt, _) => i < Range(8) && 0 <= refcnt < Range(8) / 2 && |digest| == DIGEST_SIZE
    case Recount(_, refcnt) => 0 <= refcnt < Range(8) / 2
    case Drop(_, _) => true
  }

  // ---------- what one call keeps ----------

  lemma SlotsApart(i: nat, j: nat)
    requires i != j && BucketOf(i) == BucketOf(j)
    ensures SlotOf(i) != SlotOf(j)
  {
    assert i == 256 * (i / 256) + i % 256 && j == 256 * (j / 256) + j % 256;
  }

  lemma PutShows(was: Views, now: Views, live: map<nat, Entry>, i: nat, record: Slot, chunk: Chunk)
    requires Shows(was, live) && Storable(was) && HasPut(was, now, i, record, chunk)
    ensures Shows(now, live - {i}) && Storable(now)
  {
    hide Shows, ShowsAt;
    forall j | j in live && j != i ensures ShowsAt(now, j, live[j]) {
      PutShowsOther(was, now, live, i, record, chunk, j);
    }
    assert Shows(now, live - {i}) by { ShowsAll(now, live - {i}); }
    forall b | b in now ensures StorableAt(now, b) {
      assert b in was ==> StorableAt(was, b);
    }
  }

  lemma ShowsAll(view: Views, live: map<nat, Entry>)
    requires forall i :: i in live ==> ShowsAt(view, i, live[i])
    ensures Shows(view, live)
  {
  }

  lemma PutShowsOther(was: Views, now: Views, live: map<nat, Entry>, i: nat, record: Slot, chunk: Chunk, j: nat)
    requires Shows(was, live) && HasPut(was, now, i, record, chunk) && j in live && j != i
    ensures ShowsAt(now, j, live[j])
  {
    assert ShowsAt(was, j, live[j]);
    if BucketOf(j) == BucketOf(i) { SlotsApart(i, j); }
  }

  lemma PutsBlock(was: Views, now: Views, live: map<nat, Entry>, e: Event)
    requires Shows(was, live) && Storable(was) && e.Put? && e.refcnt >= 0
    requires HasPut(was, now, e.index, RecordOf(e.index, Entry(e.digest, e.refcnt, e.chunk)), e.chunk)
    ensures Shows(now, After(live, e)) && Storable(now)
  {
    var entry := Entry(e.digest, e.refcnt, e.chunk);
    PutShows(was, now, live, e.index, RecordOf(e.index, entry), e.chunk);
    forall i | i in After(live, e) ensures ShowsAt(now, i, After(live, e)[i]) {
      if i != e.index {
        assert ShowsAt(now, i, (live - {e.index})[i]);
      }
    }
  }

  lemma RecountShows(was: Views, now: Views, live: map<nat, Entry>, i: nat, refcnt: nat)
    requires Shows(was, live) && Storable(was) && i in live && ShowsAt(was, i, live[i])
    requires HasRecounted(was, now, i, refcnt)
    ensures Shows(now, After(live, Recount(i, refcnt))) && Storable(now)
  {
    forall j | j in live ensures ShowsAt(now, j, After(live, Recount(i, refcnt))[j]) {
      assert ShowsAt(was, j, live[j]);
      if j != i && BucketOf(j) == BucketOf(i) { SlotsApart(i, j); }
    }
    forall b | b in now ensures StorableAt(now, b) {
      assert StorableAt(was, b);
    }
  }

  lemma RemoveShows(was: Views, live: map<nat, Entry>, b: nat)
    requires Shows(was, live) && Storable(was) && forall j :: j in live ==> BucketOf(j) != b
    ensures Shows(was - {b}, live) && Storable(was - {b})
  {
    forall j | j in live ensures ShowsAt(was - {b}, j, live[j]) {
      assert ShowsAt(was, j, live[j]);
    }
    forall c | c in was - {b} ensures StorableAt(was - {b}, c) {
      assert StorableAt(was, c);
    }
  }

  /** The bucket of the dropped block still has its records in memory, so it can be marked. */
  lemma MarkShows(was: Views, now: Views, live: map<nat, Entry>, b: nat)
    requires Shows(was, live) && Storable(was) && b in was && was[b].inMemory
    requires now == was[b := was[b].(clean := false)]
    ensures Shows(now, live) && Storable(now)
  {
    forall j | j in live ensures ShowsAt(now, j, live[j]) {
      assert ShowsAt(was, j, live[j]);
    }
    forall c | c in now ensures StorableAt(now, c) {
      assert StorableAt(was, c);
    }
  }

  lemma StoreShows(was: Views, live: map<nat, Entry>)
    requires Shows(was, live)
    ensures Shows(CleanBut(was, {}), live) && Storable(CleanBut(was, {}))
  {
    forall j | j in live ensures ShowsAt(CleanBut(was, {}), j, live[j]) {
      assert ShowsAt(was, j, live[j]);
    }
  }

  lemma ReadShows(was: Views, now: Views, live: map<nat, Entry>, i: nat, chunk: Chunk)
    requires Shows(was, live) && Storable(was) && HasRead(was, now, i, chunk)
    ensures Shows(now, live) && Storable(now)
    ensures i in live ==> chunk == live[i].chunk
  {
    forall j | j in live ensures ShowsAt(now, j, live[j]) {
      assert ShowsAt(was, j, live[j]);
    }
    forall c | c in now ensures StorableAt(now, c) {
      if c in was { assert StorableAt(was, c); }
    }
    if i in live { assert ShowsAt(now, i, live[i]); }
  }

  // ---------- runs ----------

  /** One call of the chunk store. A count only changes while the records of its bucket are in
      memory, so nothing aborts. */
  method Do(d: DataBuckets, e: Event, ghost live: map<nat, Entry>) returns (ok: bool)
    requires d.Valid() && Storable(d.view) && Shows(d.view, live) && Allowed(live, e) && Fits(e)
    modifies d, d.whose.Keys
    ensures ok && d.Valid() && Storable(d.view) && Shows(d.view, After(live, e))
    ensures fresh(d.whose.Keys - old(d.whose.Keys))
  {
    hide d.Valid, Storable, Shows, HasPut, HasRecounted, Range;
    match e
    case Put(i, digest, refcnt, chunk) =>
      d.PutBlock(i, Some(HashRecord(i, refcnt, digest)), chunk);
      PutsBlock(old(d.view), d.view, live, e);
      ok := true;
    case Recount(i, refcnt) =>
      assert ShowsAt(d.view, i, live[i]) by { ShownAt(d.view, live, i); }
      d.RecountBlock(i, refcnt);
      RecountShows(old(d.view), d.view, live, i, refcnt);
      ok := true;
    case Drop(i, released) => ok := DropBlock(d, i, released, live);
  }

  lemma ShownAt(view: Views, live: map<nat, Entry>, i: nat)
    requires Shows(view, live) && i in live
    ensures ShowsAt(view, i, live[i])
  {
  }

  /** The end of decRefCnt for a last reference: clear the block, release what the post
      releases, and mark the bucket. */
  method DropBlock(d: DataBuckets, i: nat, released: set<nat>, ghost live: map<nat, Entry>) returns (ok: bool)
    requires d.Valid() && Storable(d.view) && Shows(d.view, live) && Allowed(live, Drop(i, released))
    modifies d, d.whose.Keys
    ensures ok && d.Valid() && Storable(d.view) && Shows(d.view, live - {i})
    ensures forall b :: b in released ==> b !in d.view
    ensures forall b :: b in old(d.view) && old(d.view)[b].inMemory && b !in released ==> b in d.view && d.view[b].inMemory
    ensures fresh(d.whose.Keys - old(d.whose.Keys))
  {
    hide d.Valid, Storable, Shows;
    d.PutBlock(i, None, ZERO_CHUNK);
    PutShows(old(d.view), d.view, live, i, None, ZERO_CHUNK);
    ok := RemoveAll(d, released, live - {i});
    ghost var view := d.view;
    d.MarkBucket(BucketOf(i));
    MarkShows(view, d.view, live - {i}, BucketOf(i));
  }

  /** removeBucket for every released bucket. */
  method RemoveAll(d: DataBuckets, released: set<nat>, ghost live: map<nat, Entry>) returns (ok: bool)
    requires d.Valid() && Storable(d.view) && Shows(d.view, live)
    requires forall j :: j in live ==> BucketOf(j) !in released
    modifies d, d.whose.Keys
    ensures ok && d.Valid() && Storable(d.view) && Shows(d.view, live)
    ensures d.view == old(d.view) - released && d.whose == old(d.whose)
  {
    hide d.Valid, Storable, Shows;
    ok := true;
    var rest := released;
    while rest != {}
      invariant ok && rest <= released && d.Valid() && Storable(d.view) && Shows(d.view, live)
      invariant d.view == old(d.view) - (released - rest) && d.whose == old(d.whose)
    {
      var b :| b in rest;
      RemoveShows(d.view, live, b);
      assert b in d.view ==> StorableAt(d.view, b) by { CanStore(d.view); }
      ok := d.RemoveBucket(b);
      rest := rest - {b};
    }
  }

  lemma CanStore(view: Views)
    requires Storable(view)
    ensures forall b :: b in view ==> StorableAt(view, b)
  {
  }

  /** A turn: a call of the chunk store, storeAllData, or a chunk that is loaded. */
  datatype Turn = Call(event: Event) | StoreData | Load(index: nat)

  function Calls(turns: seq<Turn>): seq<Event> {
    if turns == [] then []
    else Calls(turns[..|turns| - 1]) + if turns[|turns| - 1].Call? then [turns[|turns| - 1].event] else []
  }

  /** The calls of a run are those of its parts, in order; stores and loads make none. */
  lemma {:induction false} CallsOf(a: seq<Turn>, b: seq<Turn>)
    ensures Calls(a + b) == Calls(a) + Calls(b)
    ensures forall e :: Calls([Call(e)]) == [e]
    ensures Calls([]) == [] && Calls([StoreData]) == [] && forall i :: Calls([Load(i)]) == []
  {
    if b == [] {
      assert a + b == a;
    } else {
      CallsOf(a, b[..|b| - 1]);
      assert (a + b)[..|a + b| - 1] == a + b[..|b| - 1];
    }
  }

  lemma CallsNext(turns: seq<Turn>, n: nat)
    requires n < |turns|
    ensures Calls(turns[..n + 1]) == Calls(turns[..n]) + if turns[n].Call? then [turns[n].event] else []
  {
    assert turns[..n + 1][..n] == turns[..n];
  }

  lemma {:induction false} CallsPrefix(turns: seq<Turn>, n: nat)
    requires n <= |turns|
    ensures Calls(turns[..n]) <= Calls(turns)
  {
    if n < |turns| {
      CallsPrefix(turns[..|turns| - 1], n);
      assert turns[..|turns| - 1][..n] == turns[..n];
    } else {
      assert turns[..n] == turns;
    }
  }

  /** A chunk that is loaded from a live block is the chunk that was put there. */
  ghost predicate LoadsRight(turns: seq<Turn>, chunks: seq<Chunk>, n: nat)
    requires n < |turns| && n < |chunks|
  {
    var live := Live(Calls(turns[..n]));
    turns[n].Load? && turns[n].index in live ==> chunks[n] == live[turns[n].index].chunk
  }

  /** Whatever the chunk store asks of the buckets, with any number of storeAllData and loads in
      between: no store finds a change without records, every load of a live block returns its
      chunk, and every live block shows the record and the chunk it must. */
  method Run(protocol: Protocol, turns: seq<Turn>) returns (d: DataBuckets, chunks: seq<Chunk>, ok: bool)
    requires Decrypts(protocol) && Legal(Calls(turns))
    requires forall k :: 0 <= k < |turns| && turns[k].Call? ==> Fits(turns[k].event)
    ensures fresh(d) && fresh(d.whose.Keys)
    ensures ok && d.Valid() && Storable(d.view) && Shows(d.view, Live(Calls(turns)))
    ensures |chunks| == |turns| && forall n :: 0 <= n < |turns| ==> LoadsRight(turns, chunks, n)
  {
    hide Storable, Shows, Fits, Live, Calls, Legal, LoadsRight;
    d := new DataBuckets(protocol);
    chunks, ok := [], true;
    NothingShown(d.view, turns);
    for n := 0 to |turns|
      invariant fresh(d) && fresh(d.whose.Keys)
      invariant ok && d.Valid() && Storable(d.view) && Shows(d.view, Live(Calls(turns[..n])))
      invariant |chunks| == n && forall m :: 0 <= m < n ==> LoadsRight(turns, chunks, m)
    {
      NextTurn(turns, n);
      var chunk;
      chunk, ok := Take(d, turns[n], Live(Calls(turns[..n])));
      LoadsNext(turns, chunks, chunk);
      chunks := chunks + [chunk];
    }
    assert turns[..|turns|] == turns;
  }

  lemma LoadsNext(turns: seq<Turn>, chunks: seq<Chunk>, chunk: Chunk)
    requires var n := |chunks|; n < |turns|
    requires var n := |chunks|; var live := Live(Calls(turns[..n]));
             turns[n].Load? && turns[n].index in live ==> chunk == live[turns[n].index].chunk
    requires forall m :: 0 <= m < |chunks| ==> LoadsRight(turns, chunks, m)
    ensures forall m :: 0 <= m <= |chunks| ==> LoadsRight(turns, chunks + [chunk], m)
  {
    hide Live, Calls;
    forall m | 0 <= m < |chunks| ensures LoadsRight(turns, chunks + [chunk], m) {
      assert LoadsRight(turns, chunks, m);
    }
  }

  lemma NothingShown(view: Views, turns: seq<Turn>)
    requires view == map[]
    ensures Storable(view) && Shows(view, Live(Calls(turns[..0])))
  {
  }

  /** What is live after a turn. */
  function AfterTurn(live: map<nat, Entry>, t: Turn): map<nat, Entry> {
    if t.Call? then After(live, t.event) else live
  }

  lemma NextTurn(turns: seq<Turn>, n: nat)
    requires n < |turns| && Legal(Calls(turns))
    ensures Live(Calls(turns[..n + 1])) == AfterTurn(Live(Calls(turns[..n])), turns[n])
    ensures turns[n].Call? ==> Allowed(Live(Calls(turns[..n])), turns[n].event)
  {
    hide Legal, Live, Calls;
    CallsPrefix(turns, n + 1);
    CallsNext(turns, n);
    if turns[n].Call? {
      var k := |Calls(turns[..n])|;
      LegalPrefix(Calls(turns), k);
      assert Calls(turns)[..k + 1] == Calls(turns[..n + 1]) && Calls(turns)[k] == turns[n].event;
      assert Calls(turns)[..k] == Calls(turns[..n]);
    } else {
      assert Calls(turns[..n + 1]) == Calls(turns[..n]);
    }
  }

  method Take(d: DataBuckets, t: Turn, ghost live: map<nat, Entry>) returns (chunk: Chunk, ok: bool)
    requires d.Valid() && Storable(d.view) && Shows(d.view, live)
    requires t.Call? ==> Allowed(live, t.event) && Fits(t.event)
    modifies d, d.whose.Keys
    ensures ok && d.Valid() && Storable(d.view) && Shows(d.view, AfterTurn(live, t))
    ensures t.Load? && t.index in live ==> chunk == live[t.index].chunk
    ensures fresh(d.whose.Keys - old(d.whose.Keys))
  {
    hide d.Valid, Storable, Shows, Allowed, Fits, After;
    chunk := ZERO_CHUNK;
    match t
    case Call(e) => ok := Do(d, e, live);
    case StoreData =>
      ok := d.StoreAll();
      StoreShows(old(d.view), live);
    case Load(i) =>
      chunk := d.ReadBlock(i);
      ReadShows(old(d.view), d.view, live, i, chunk);
      ok := true;
  }

  /** The mark at the end of decRefCnt (src/modules/filesystem/hash.cpp:75), whenever it comes:
      storeAllData can go on after it exactly when the bucket still has its records in memory. */
  method MarkAndStore(d: DataBuckets, b: nat) returns (ok: bool)
    requires d.Valid() && Storable(d.view)
    modifies d, d.whose.Keys
    ensures ok <==> b in old(d.view) && old(d.view)[b].inMemory
    ensures ok ==> d.Valid() && Storable(d.view)
  {
    hide d.Valid;
    d.MarkBucket(b);
    MarkStorable(old(d.view), d.view, b);
    ok := d.StoreAll();
  }

  lemma MarkStorable(was: Views, now: Views, b: nat)
    requires Storable(was) && b in now && now == was[b := now[b]] && !now[b].clean
    requires if b in was then now[b].inMemory == was[b].inMemory else !now[b].inMemory
    ensures Storable(now) <==> b in was && was[b].inMemory
    ensures Storable(CleanBut(now, {}))
  {
    assert StorableAt(now, b) <==> now[b].inMemory;
    forall c | c in now && c != b ensures StorableAt(now, c) {
      assert StorableAt(was, c);
    }
  }
}
