/** Runs over the metadata store: what files rested, stored and deleted in any order read back. */
module MetaSession {
  import opened Chunks
  import opened Flattening
  import opened Pool
  import opened InodeState
  import opened InodeContents
  import opened MetaStore

  // ---------- the reference model ----------

  /** What was last rested and stored, and the size. */
  datatype Memo = Memo(list: seq<nat>, text: seq<Byte>, size: nat)

  /** Files are named by the order they were created in. */
  datatype MetaOp =
    | NewOne
    | RestOf(file: nat, hashes: seq<nat>)
    | SizeOf(file: nat, size: nat)
    | TextOf(file: nat, input: seq<Byte>)
    | DeleteOf(file: nat)

  datatype Entry = Live(memo: Memo) | Gone

  predicate Fits(op: MetaOp) {
    op.TextOf? ==> |op.input| < 0xFFFF_FFFF
  }

  predicate IsLive(model: seq<Entry>, k: nat) {
    k < |model| && model[k].Live?
  }

  function After(model: seq<Entry>, op: MetaOp): seq<Entry> {
    match op
    case NewOne => model + [Live(Memo([], [], 0))]
    case RestOf(k, hashes) => if IsLive(model, k) then model[k := Live(model[k].memo.(list := hashes))] else model
    case SizeOf(k, size) => if IsLive(model, k) then model[k := Live(model[k].memo.(size := size))] else model
    case TextOf(k, input) => if IsLive(model, k) then model[k := Live(model[k].memo.(text := input))] else model
    case DeleteOf(k) => if IsLive(model, k) then model[k := Gone] else model
  }

  function AfterAll(ops: seq<MetaOp>): seq<Entry> {
    if ops == [] then [] else After(AfterAll(ops[..|ops| - 1]), ops[|ops| - 1])
  }

  /** Creating a file appends an empty one; the other operations set one field of one live file, or
      end it, and nothing else. */
  lemma AfterOne(model: seq<Entry>, op: MetaOp, k: nat)
    ensures var after := After(model, op);
            && |after| == |model| + (if op.NewOne? then 1 else 0)
            && (op.NewOne? ==> after[|model|] == Live(Memo([], [], 0)))
            && (k < |model| && (op.NewOne? || op.file != k || model[k].Gone?) ==> after[k] == model[k])
            && (k < |model| && model[k].Live? && !op.NewOne? && op.file == k ==>
                  match op
                  case RestOf(_, hashes) => after[k] == Live(Memo(hashes, model[k].memo.text, model[k].memo.size))
                  case SizeOf(_, size) => after[k] == Live(Memo(model[k].memo.list, model[k].memo.text, size))
                  case TextOf(_, input) => after[k] == Live(Memo(model[k].memo.list, input, model[k].memo.size))
                  case DeleteOf(_) => after[k] == Gone)
  {
  }

  lemma AfterSnoc(ops: seq<MetaOp>, op: MetaOp)
    ensures AfterAll(ops + [op]) == After(AfterAll(ops), op)
  {
    hide After;
    assert (ops + [op])[..|ops|] == ops;
  }

  /** What was rested, stored or set last stays until it is set again or the file is deleted, and a
      deleted file never comes back, whatever is done to other files meanwhile. */
  lemma {:induction false} LastStays(ops: seq<MetaOp>, more: seq<MetaOp>, k: nat)
    requires k < |AfterAll(ops)|
    ensures var was, now := AfterAll(ops), AfterAll(ops + more);
            && k < |now|
            && (was[k].Gone? ==> now[k].Gone?)
            && (was[k].Live? ==> (now[k].Live? <==> DeleteOf(k) !in more))
            && (now[k].Live? && (forall op :: op in more && op.RestOf? ==> op.file != k) ==> now[k].memo.list == was[k].memo.list)
            && (now[k].Live? && (forall op :: op in more && op.SizeOf? ==> op.file != k) ==> now[k].memo.size == was[k].memo.size)
            && (now[k].Live? && (forall op :: op in more && op.TextOf? ==> op.file != k) ==> now[k].memo.text == was[k].memo.text)
    decreases |more|
  {
    hide After, AfterAll;
    if more == [] {
      assert ops + more == ops;
    } else {
      var front, last := more[..|more| - 1], more[|more| - 1];
      assert more == front + [last] && ops + more == ops + front + [last];
      LastStays(ops, front, k);
      AfterSnoc(ops + front, last);
      AfterOne(AfterAll(ops + front), last, k);
    }
  }

  // ---------- what the blocks remember ----------

  ghost predicate Remembers(v: FileView, memo: Memo) {
    && memo.list <= Flat(v.slots) && v.size == memo.size && v.metasize == |memo.text|
    && (memo.text != [] && memo.text[|memo.text| - 1] != 0 ==> Restored(Flat(v.text), v.metasize) == memo.text)
  }

  /** Every live file has its own inode, which remembers what the model says. */
  ghost predicate Tracks(views: map<nat, FileView>, names: seq<nat>, model: seq<Entry>) {
    && |names| == |model|
    && (forall k :: 0 <= k < |model| && model[k].Live? ==> names[k] in views && Remembers(views[names[k]], model[k].memo))
    && (forall k, l :: 0 <= k < l < |model| && model[k].Live? && model[l].Live? ==> names[k] != names[l])
  }

  lemma TracksPut(views: map<nat, FileView>, names: seq<nat>, model: seq<Entry>, k: nat, v: FileView, memo: Memo)
    requires Tracks(views, names, model) && IsLive(model, k) && Remembers(v, memo)
    ensures Tracks(views[names[k] := v], names, model[k := Live(memo)])
  {
    hide Remembers;
  }

  lemma TracksNew(views: map<nat, FileView>, names: seq<nat>, model: seq<Entry>, id: nat, v: FileView)
    requires Tracks(views, names, model) && id !in views && v == FileView([NoSlots(INODE_SLOTS)], [], 0, 0)
    ensures Tracks(views[id := v], names + [id], model + [Live(Memo([], [], 0))])
  {
    assert Remembers(v, Memo([], [], 0));
    hide Remembers;
  }

  lemma TracksDelete(views: map<nat, FileView>, names: seq<nat>, model: seq<Entry>, k: nat)
    requires Tracks(views, names, model) && IsLive(model, k)
    ensures Tracks(views - {names[k]}, names, model[k := Gone])
  {
    hide Remembers;
  }

  lemma RestRemembered(was: FileView, now: FileView, memo: Memo, hashes: seq<nat>)
    requires Remembers(was, memo) && now == was.(slots := now.slots) && Rested(was.slots, now.slots, hashes)
    ensures Remembers(now, memo.(list := hashes))
  {
    hide Flat, Restored, Padded;
  }

  lemma TextRemembered(was: FileView, now: FileView, memo: Memo, input: seq<Byte>)
    requires Remembers(was, memo) && now == was.(text := now.text, metasize := |input|) && TextStored(was.text, now.text, input)
    ensures Remembers(now, memo.(text := input))
  {
    hide Flat, Restored, TextStored, NonZeroFrom;
    LoadAfterStore(was.text, now.text, input);
  }

  lemma SizeRemembered(v: FileView, memo: Memo, size: nat)
    requires Remembers(v, memo)
    ensures Remembers(v.(size := size), memo.(size := size))
  {
    hide Flat, Restored;
  }

  /** One operation. */
  method Apply(store: MetaBuckets, names: seq<nat>, ghost model: seq<Entry>, op: MetaOp, live: bool)
    returns (names': seq<nat>, ok: bool)
    requires store.Valid() && Tracks(store.Files(), names, model) && Fits(op)
    requires !op.NewOne? ==> live == IsLive(model, op.file)
    modifies store, store.accounting.Repr
    ensures ok ==> store.Valid() && Tracks(store.Files(), names', After(model, op))
    ensures !ok ==> |store.accounting.bucketsInUse| > MAX_BUCKETS
  {
    hide store.Valid, store.Files, Remembers, Rested, TextStored;
    names', ok := names, true;
    ghost var views := store.Files();
    match op
    case NewOne =>
      var id := store.NewFile();
      TracksNew(views, names, model, id, FileView([NoSlots(INODE_SLOTS)], [], 0, 0));
      names' := names + [id];
    case RestOf(k, hashes) =>
      if live {
        InodeOfView(store, names[k]);
        store.Rest(names[k], hashes);
        RestRemembered(views[names[k]], store.Files()[names[k]], model[k].memo, hashes);
        TracksPut(views, names, model, k, store.Files()[names[k]], model[k].memo.(list := hashes));
      }
    case SizeOf(k, size) =>
      if live {
        InodeOfView(store, names[k]);
        store.SetSize(names[k], size);
        SizeRemembered(views[names[k]], model[k].memo, size);
        TracksPut(views, names, model, k, views[names[k]].(size := size), model[k].memo.(size := size));
      }
    case TextOf(k, input) =>
      if live {
        InodeOfView(store, names[k]);
        store.StoreMetaData(names[k], input);
        TextRemembered(views[names[k]], store.Files()[names[k]], model[k].memo, input);
        TracksPut(views, names, model, k, store.Files()[names[k]], model[k].memo.(text := input));
      }
    case DeleteOf(k) =>
      if live {
        InodeOfView(store, names[k]);
        ok := store.Delete(names[k]);
        TracksDelete(views, names, model, k);
      }
  }

  lemma InodeOfView(store: MetaBuckets, i: nat)
    ensures i in store.Files() <==> i in store.disk.inodes
  {
  }

  lemma AfterNext(ops: seq<MetaOp>, n: nat)
    requires n < |ops|
    ensures AfterAll(ops[..n + 1]) == After(AfterAll(ops[..n]), ops[n])
  {
    assert ops[..n + 1][..n] == ops[..n];
  }

  ghost predicate LivesOf(lives: seq<bool>, model: seq<Entry>) {
    |lives| == |model| && forall k :: 0 <= k < |lives| ==> (lives[k] <==> model[k].Live?)
  }

  /** Any run on a fresh file system: the inode of every file that is left remembers what the run
      did to the file.  Reading one back gives the list rested last, as far as its size calls for
      entries, and the metadata string stored last, whatever was done to it before and to the other
      files meanwhile.  Only the allocator can end the run early. */
  method Session(metaString: seq<Byte>, ops: seq<MetaOp>, k: nat, known: set<nat>)
    returns (store: MetaBuckets, names: seq<nat>, list: seq<nat>, text: seq<Byte>, ok: bool)
    requires |metaString| < CTD_CHARS && forall n :: 0 <= n < |ops| ==> Fits(ops[n])
    requires IsLive(AfterAll(ops), k)
    ensures var memo := AfterAll(ops)[k].memo;
            && (ok && ChunksFor(memo.size) <= |memo.list| && (forall h :: h in memo.list ==> h != 0 && h in known) ==>
                  list == memo.list[..ChunksFor(memo.size)])
            && (ok && (memo.text == [] || memo.text[|memo.text| - 1] != 0) ==> text == memo.text)
    ensures ok ==> store.Valid() && Tracks(store.Files(), names, AfterAll(ops))
    ensures !ok ==> |store.accounting.bucketsInUse| > MAX_BUCKETS
  {
    store := new MetaBuckets(metaString);
    hide store.Valid, store.Files, Tracks, After, AfterAll, RootView;
    var lives: seq<bool> := [];
    names := [];
    NothingTracked(store.Files());
    ok := true;
    for n := 0 to |ops|
      invariant fresh(store) && fresh(store.accounting.Repr) && store.Valid() && ok
      invariant Tracks(store.Files(), names, AfterAll(ops[..n])) && LivesOf(lives, AfterAll(ops[..n]))
    {
      ghost var model := AfterAll(ops[..n]);
      AfterNext(ops, n);
      LivesNext(lives, model, ops[n]);
      names, ok := Apply(store, names, model, ops[n], !ops[n].NewOne? && ops[n].file < |lives| && lives[ops[n].file]);
      if !ok {
        return store, names, [], [], false;
      }
      lives := if ops[n].NewOne? then lives + [true]
               else if ops[n].DeleteOf? && ops[n].file < |lives| then lives[ops[n].file := false]
               else lives;
    }
    assert ops[..|ops|] == ops;
    list, text := ReadBack(store, names, AfterAll(ops), k, known);
  }

  lemma NothingTracked(views: map<nat, FileView>)
    ensures Tracks(views, [], AfterAll([])) && AfterAll([]) == []
    ensures forall ops: seq<MetaOp> :: AfterAll(ops[..0]) == []
  {
  }

  lemma LivesNext(lives: seq<bool>, model: seq<Entry>, op: MetaOp)
    requires LivesOf(lives, model)
    ensures !op.NewOne? ==> (IsLive(model, op.file) <==> op.file < |lives| && lives[op.file])
    ensures LivesOf(if op.NewOne? then lives + [true]
                    else if op.DeleteOf? && op.file < |lives| then lives[op.file := false]
                    else lives, After(model, op))
  {
  }

  method ReadBack(store: MetaBuckets, names: seq<nat>, ghost model: seq<Entry>, k: nat, known: set<nat>)
    returns (list: seq<nat>, text: seq<Byte>)
    requires store.Valid() && Tracks(store.Files(), names, model) && IsLive(model, k)
    ensures store.Valid()
    ensures var memo := model[k].memo;
            && (ChunksFor(memo.size) <= |memo.list| && (forall h :: h in memo.list ==> h != 0 && h in known) ==>
                  list == memo.list[..ChunksFor(memo.size)])
            && (memo.text == [] || memo.text[|memo.text| - 1] != 0 ==> text == memo.text)
  {
    hide PoolInv, Held, Linked, store.Files, ChunksFor, Loaded;
    InodeOfView(store, names[k]);
    var zeros;
    list, zeros := store.LoadHashes(names[k], known);
    text := store.LoadMetaData(names[k]);
    ghost var memo := model[k].memo;
    if ChunksFor(memo.size) <= |memo.list| && forall h :: h in memo.list ==> h != 0 && h in known {
      LoadedIsList(Flat(store.Files()[names[k]].slots), memo.list, ChunksFor(memo.size), known);
    }
  }
}
