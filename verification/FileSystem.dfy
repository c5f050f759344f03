/** Many files on one deduplicating store, and the flat byte arrays they amount to. */
module FileSystem {
  import opened NodeLists
  import opened Pool
  import opened Chunks
  import opened FlatFiles
  import opened StoreState
  import opened Store
  import opened Files

  // ---------- the reference model of a run ----------

  datatype Op =
    | Create
    | Write(file: nat, offset: nat, buf: seq<Byte>)
    | Truncate(file: nat, size: nat)
    | SwapContent(file: nat, content: seq<Byte>)
    | Unlink(file: nat)
  {
    predicate Names(n: nat) {
      this.Create? || file < n
    }
  }

  /** The operation runs into an assertion of the program. */
  ghost predicate Aborts(flats: seq<FlatFile>, op: Op)
    requires op.Names(|flats|)
  {
    match op
    case Create => false
    case Write(f, offset, buf) => LengthAborts(flats[f], offset, |buf|)
    case Truncate(f, size) => false
    case SwapContent(f, content) => SwapAborts(content)
    case Unlink(f) => false
  }

  /** Independent byte arrays: an operation changes the one it names. */
  ghost function After(flats: seq<FlatFile>, op: Op): seq<FlatFile>
    requires op.Names(|flats|) && !Aborts(flats, op)
  {
    match op
    case Create => flats + [EMPTY]
    case Write(f, offset, buf) => flats[f := Written(flats[f], offset, buf)]
    case Truncate(f, size) => flats[f := Truncated(flats[f], size)]
    case SwapContent(f, content) => flats[f := Swapped(content)]
    case Unlink(f) => Without(flats, f)
  }

  function Without<T>(s: seq<T>, i: nat): (r: seq<T>)
    requires i < |s|
    ensures |r| == |s| - 1 && forall k :: 0 <= k < |r| ==> r[k] == s[if k < i then k else k + 1]
  {
    s[..i] + s[i + 1..]
  }

  ghost predicate Runs(flats: seq<FlatFile>, ops: seq<Op>)
    decreases |ops|
  {
    ops == [] ||
    (ops[0].Names(|flats|) && !Aborts(flats, ops[0]) && Runs(After(flats, ops[0]), ops[1..]))
  }

  ghost function AfterAll(flats: seq<FlatFile>, ops: seq<Op>): seq<FlatFile>
    requires Runs(flats, ops)
    decreases |ops|
  {
    if ops == [] then flats else AfterAll(After(flats, ops[0]), ops[1..])
  }

  // ---------- the claims of all files ----------

  /** Every slot of every file claims its hash. */
  ghost function Claims(lists: seq<seq<Hash>>): multiset<Hash> {
    if lists == [] then multiset{} else Claims(lists[..|lists| - 1]) + multiset(lists[|lists| - 1])
  }

  lemma {:induction false} ClaimsUpdate(lists: seq<seq<Hash>>, i: nat, list: seq<Hash>)
    requires i < |lists|
    ensures multiset(lists[i]) <= Claims(lists)
    ensures Claims(lists[i := list]) == Claims(lists) - multiset(lists[i]) + multiset(list)
  {
    var front, last := lists[..|lists| - 1], lists[|lists| - 1];
    var lists' := lists[i := list];
    if i == |lists| - 1 {
      assert lists'[..|lists| - 1] == front;
    } else {
      ClaimsUpdate(front, i, list);
      assert lists'[..|lists| - 1] == front[i := list];
    }
  }

  lemma ClaimsPush(lists: seq<seq<Hash>>)
    ensures Claims(lists + [[]]) == Claims(lists)
  {
    assert (lists + [[]])[..|lists|] == lists;
  }

  /** A file without slots claims nothing. */
  lemma {:induction false} ClaimsRemove(lists: seq<seq<Hash>>, i: nat)
    requires i < |lists| && lists[i] == []
    ensures Claims(Without(lists, i)) == Claims(lists)
  {
    var front := lists[..|lists| - 1];
    if i == |lists| - 1 {
      assert Without(lists, i) == front;
    } else {
      ClaimsRemove(front, i);
      assert Without(lists, i)[..|lists| - 2] == Without(front, i);
    }
  }

  ghost function ListsOf(files: seq<File>): (lists: seq<seq<Hash>>)
    reads files
    ensures |lists| == |files| && forall i :: 0 <= i < |files| ==> lists[i] == files[i].hashList
  {
    if files == [] then [] else ListsOf(files[..|files| - 1]) + [files[|files| - 1].hashList]
  }

  ghost function FlatsOf(files: seq<File>): (flats: seq<FlatFile>)
    reads files
    ensures |flats| == |files| && forall i :: 0 <= i < |files| ==> flats[i] == files[i].Flat()
  {
    if files == [] then [] else FlatsOf(files[..|files| - 1]) + [files[|files| - 1].Flat()]
  }

  ghost predicate AllShaped(flats: seq<FlatFile>) {
    forall i :: 0 <= i < |flats| ==> Shape(flats[i])
  }

  lemma ShapedUpdate(flats: seq<FlatFile>, i: nat, f: FlatFile)
    requires AllShaped(flats) && i < |flats| && Shape(f)
    ensures AllShaped(flats[i := f])
  {
  }

  lemma ShapedPush(flats: seq<FlatFile>)
    requires AllShaped(flats)
    ensures AllShaped(flats + [EMPTY])
  {
  }

  lemma NoFiles(files: seq<File>)
    requires files == []
    ensures Claims(ListsOf(files)) == multiset{} && AllShaped(FlatsOf(files))
  {
  }

  lemma AfterCreate(files: seq<File>, f: File)
    requires f.hashList == [] && f.Flat() == EMPTY && AllShaped(FlatsOf(files))
    ensures Claims(ListsOf(files + [f])) == Claims(ListsOf(files))
    ensures FlatsOf(files + [f]) == FlatsOf(files) + [EMPTY] && AllShaped(FlatsOf(files + [f]))
  {
    hide Claims, AllShaped;
    ClaimsPush(ListsOf(files));
    ShapedPush(FlatsOf(files));
    assert ListsOf(files + [f]) == ListsOf(files) + [[]];
    assert FlatsOf(files + [f]) == FlatsOf(files) + [EMPTY];
  }

  lemma AfterUnlink(files: seq<File>, i: nat)
    requires i < |files| && files[i].hashList == [] && AllShaped(FlatsOf(files)) && NoDup(files)
    ensures Claims(ListsOf(Without(files, i))) == Claims(ListsOf(files))
    ensures FlatsOf(Without(files, i)) == Without(FlatsOf(files), i) && AllShaped(FlatsOf(Without(files, i)))
    ensures NoDup(Without(files, i))
  {
    hide Claims, ListsOf, FlatsOf, AllShaped, NoDup;
    ShapedWithout(FlatsOf(files), i);
    NoDupWithout(files, i);
    ClaimsRemove(ListsOf(files), i);
    assert ListsOf(Without(files, i)) == Without(ListsOf(files), i);
    assert FlatsOf(Without(files, i)) == Without(FlatsOf(files), i);
  }

  lemma ShapedWithout(flats: seq<FlatFile>, i: nat)
    requires AllShaped(flats) && i < |flats|
    ensures AllShaped(Without(flats, i))
  {
    hide Shape;
  }

  lemma NoDupWithout<T>(s: seq<T>, i: nat)
    requires NoDup(s) && i < |s|
    ensures NoDup(Without(s, i))
  {
  }

  lemma NothingLeft(was: FlatFile, f: File)
    requires f.Flat() == Truncated(was, 0)
    ensures f.hashList == []
  {
  }

  lemma NothingElse<T>(s: seq<T>, x: T, i: nat)
    requires i < |s|
    ensures Without(s[i := x], i) == Without(s, i)
  {
  }

  class FileSystem {
    const store: Storage
    var files: seq<File>

    ghost predicate Valid()
      reads this, store, store.accounting.Repr, store.view.table.Keys, files
    {
      && store.Valid()
      && NoDup(files)
      && store.view.refs == Claims(ListsOf(files))
      && AllShaped(FlatsOf(files))
    }

    /** A file system that was just made. */
    constructor (sha: Chunk -> Digest)
      requires CollisionFree(sha)
      ensures Valid() && files == [] && store.sha == sha
      ensures fresh(store) && fresh(store.Footprint())
    {
      hide CollisionFree, Inv;
      store := new Storage(sha);
      files := [];
      new;
      NoFiles(files);
    }

    /** What an operation on file i relies on. */
    lemma BeforeFile(i: nat)
      requires Valid() && i < |files|
      ensures store.Valid() && multiset(files[i].hashList) <= store.view.refs
      ensures FlatsOf(files)[i] == files[i].Flat() && Shape(files[i].Flat())
    {
      ClaimsUpdate(ListsOf(files), i, []);
      assert Shape(FlatsOf(files)[i]);
    }

    /** After an operation that exchanged the claims of file i and left the other files alone. */
    lemma AfterFile(i: nat, refs: multiset<Hash>, lists: seq<seq<Hash>>, flats: seq<FlatFile>)
      requires store.Valid() && NoDup(files) && i < |files| == |lists| == |flats|
      requires refs == Claims(lists) && Exchanged(refs, lists[i], store.view.refs, files[i].hashList)
      requires forall j :: 0 <= j < |files| && j != i ==> files[j].hashList == lists[j] && files[j].Flat() == flats[j]
      requires AllShaped(flats[i := files[i].Flat()])
      ensures Valid() && FlatsOf(files) == flats[i := files[i].Flat()]
    {
      hide store.Valid, Claims, AllShaped, ListsOf, FlatsOf;
      assert ListsOf(files) == lists[i := files[i].hashList];
      assert FlatsOf(files) == flats[i := files[i].Flat()];
      ClaimsUpdate(lists, i, files[i].hashList);
    }

    /** mkobject, as far as contents go: one more empty file. */
    method CreateFile()
      requires Valid()
      modifies this
      ensures Valid() && FlatsOf(files) == old(FlatsOf(files)) + [EMPTY]
      ensures old(files) <= files && |files| == |old(files)| + 1 && fresh(files[|old(files)|])
      ensures store.view == old(store.view)
    {
      hide store.Valid, Claims, AllShaped, ListsOf, FlatsOf, NoDup;
      var f := new File();
      NotInFootprint();
      NoDupPush(files, f);
      AfterCreate(files, f);
      files := files + [f];
    }

    lemma NotInFootprint()
      ensures this !in store.Footprint()
    {
    }

    method WriteFile(i: nat, offset: nat, buf: seq<Byte>) returns (ok: bool)
      requires Valid() && i < |files| && !LengthAborts(FlatsOf(files)[i], offset, |buf|)
      modifies files[i], store, store.accounting.Repr, store.view.table.Keys
      ensures ok ==> old(store.view.events) <= store.view.events
      ensures ok ==> Valid() && FlatsOf(files) == old(FlatsOf(files))[i := Written(old(FlatsOf(files))[i], offset, buf)]
      ensures ok ==> forall h :: h in store.view.table && h !in old(store.view.table) ==> fresh(h)
      ensures !ok ==> |store.accounting.bucketsInUse| > MAX_BUCKETS
    {
      hide store.Valid, Claims, AllShaped, Exchanged, ListsOf, FlatsOf;
      ghost var refs, lists, flats := store.view.refs, ListsOf(files), FlatsOf(files);
      BeforeFile(i);
      WriteKeepsShape(flats[i], offset, buf);
      ShapedUpdate(flats, i, Written(flats[i], offset, buf));
      hide Written, Truncated, Swapped, Shape;
      ok := files[i].Write(store, buf, offset);
      if ok {
        AfterFile(i, refs, lists, flats);
      }
    }

    method TruncateFile(i: nat, size: nat) returns (ok: bool)
      requires Valid() && i < |files|
      modifies files[i], store, store.accounting.Repr, store.view.table.Keys
      ensures ok ==> old(store.view.events) <= store.view.events
      ensures ok ==> Valid() && FlatsOf(files) == old(FlatsOf(files))[i := Truncated(old(FlatsOf(files))[i], size)]
      ensures ok ==> forall h :: h in store.view.table && h !in old(store.view.table) ==> fresh(h)
      ensures !ok ==> |store.accounting.bucketsInUse| > MAX_BUCKETS
    {
      hide store.Valid, Claims, AllShaped, Exchanged, ListsOf, FlatsOf;
      ghost var refs, lists, flats := store.view.refs, ListsOf(files), FlatsOf(files);
      BeforeFile(i);
      TruncateKeepsShape(flats[i], size);
      ShapedUpdate(flats, i, Truncated(flats[i], size));
      hide Written, Truncated, Swapped, Shape;
      ok := files[i].Truncate(store, size);
      if ok {
        AfterFile(i, refs, lists, flats);
      }
    }

    method SwapFile(i: nat, content: seq<Byte>) returns (ok: bool)
      requires Valid() && i < |files| && !SwapAborts(content)
      modifies files[i], store, store.accounting.Repr, store.view.table.Keys
      ensures ok ==> old(store.view.events) <= store.view.events
      ensures ok ==> Valid() && FlatsOf(files) == old(FlatsOf(files))[i := Swapped(content)]
      ensures ok ==> forall h :: h in store.view.table && h !in old(store.view.table) ==> fresh(h)
      ensures !ok ==> |store.accounting.bucketsInUse| > MAX_BUCKETS
    {
      hide store.Valid, Claims, AllShaped, Exchanged, ListsOf, FlatsOf;
      ghost var refs, lists, flats := store.view.refs, ListsOf(files), FlatsOf(files);
      BeforeFile(i);
      SwapHasShape(content);
      ShapedUpdate(flats, i, Swapped(content));
      hide Written, Truncated, Swapped, Shape;
      ok := files[i].SwapContent(store, content);
      if ok {
        AfterFile(i, refs, lists, flats);
      }
    }

    /** unlink of the last name: the deleted file is cut to nothing (setDeletedAndReturnAllUsedInodes)
        and leaves the list. */
    method UnlinkFile(i: nat) returns (ok: bool)
      requires Valid() && i < |files|
      modifies this, files[i], store, store.accounting.Repr, store.view.table.Keys
      ensures ok ==> old(store.view.events) <= store.view.events
      ensures ok ==> Valid() && FlatsOf(files) == Without(old(FlatsOf(files)), i) && files == Without(old(files), i)
      ensures ok ==> forall h :: h in store.view.table && h !in old(store.view.table) ==> fresh(h)
      ensures !ok ==> |store.accounting.bucketsInUse| > MAX_BUCKETS
    {
      hide Valid, FlatsOf, Without, Truncated;
      NotInFootprint();
      ghost var flats := FlatsOf(files);
      ok := TruncateFile(i, 0);
      assert files == old(files);
      if ok {
        NothingElse(flats, Truncated(flats[i], 0), i);
        NothingLeft(flats[i], files[i]);
        RemoveEmpty(i);
      }
    }

    /** A file without slots leaves the list. */
    method RemoveEmpty(i: nat)
      requires Valid() && i < |files| && files[i].hashList == []
      modifies `files
      ensures Valid() && FlatsOf(files) == Without(old(FlatsOf(files)), i) && files == Without(old(files), i)
    {
      hide store.Valid, Claims, AllShaped, ListsOf, FlatsOf, NoDup;
      NotInFootprint();
      AfterUnlink(files, i);
      files := files[..i] + files[i + 1..];
    }

    /** read: the bytes the reference model holds; no file changes. */
    method ReadFile(i: nat, size: nat, offset: nat) returns (buf: seq<Byte>)
      requires Valid() && i < |files|
      modifies store, store.view.table.Keys
      ensures old(store.view.events) <= store.view.events
      ensures Valid() && FlatsOf(files) == old(FlatsOf(files))
      ensures |buf| == ReadLength(FlatsOf(files)[i], offset, size)
      ensures buf != [] ==> offset + |buf| <= |FlatsOf(files)[i].bytes|
      ensures buf != [] ==> buf == FlatsOf(files)[i].bytes[offset..offset + |buf|]
      ensures store.view.table.Keys == old(store.view.table.Keys)
    {
      hide store.Valid, Claims, AllShaped, Shape, ReadLength;
      ghost var lists, flats := ListsOf(files), FlatsOf(files);
      BeforeFile(i);
      buf := files[i].Read(store, size, offset);
      assert ListsOf(files) == lists && FlatsOf(files) == flats;
    }

    /** One operation: the file it names changes as the reference model says and no other
        file does.  The result is false when the allocator aborts the process. */
    method Apply(op: Op) returns (ok: bool)
      requires Valid() && op.Names(|files|) && !Aborts(FlatsOf(files), op)
      modifies this, files, store, store.accounting.Repr, store.view.table.Keys
      ensures ok ==> old(store.view.events) <= store.view.events
      ensures ok ==> Valid() && FlatsOf(files) == After(old(FlatsOf(files)), op)
      ensures ok ==> forall f :: f in files && f !in old(files) ==> fresh(f)
      ensures ok ==> forall h :: h in store.view.table && h !in old(store.view.table) ==> fresh(h)
      ensures !ok ==> |store.accounting.bucketsInUse| > MAX_BUCKETS
    {
      hide store.Valid, ListsOf, FlatsOf, AllShaped, Claims, NoDup, Without, Written, Truncated, Swapped;
      match op
      case Create =>
        CreateFile();
        ok := true;
      case Write(i, offset, buf) => ok := WriteFile(i, offset, buf);
      case Truncate(i, size) => ok := TruncateFile(i, size);
      case SwapContent(i, content) => ok := SwapFile(i, content);
      case Unlink(i) => ok := UnlinkFile(i);
    }

    /** Any run of operations that meets no assertion does to the files exactly what it does
        to independent byte arrays, unless the allocator aborts it. */
    method Run(ops: seq<Op>) returns (ok: bool)
      requires Valid() && Runs(FlatsOf(files), ops)
      modifies this, files, store, store.accounting.Repr, store.view.table.Keys
      ensures ok ==> old(store.view.events) <= store.view.events
      ensures ok ==> Valid() && FlatsOf(files) == AfterAll(old(FlatsOf(files)), ops)
      ensures !ok ==> |store.accounting.bucketsInUse| > MAX_BUCKETS
    {
      hide store.Valid, ListsOf, FlatsOf, AllShaped, Claims, After, Aborts;
      ok := true;
      for n := 0 to |ops|
        invariant Valid() && Runs(FlatsOf(files), ops[n..]) && old(store.view.events) <= store.view.events
        invariant AfterAll(FlatsOf(files), ops[n..]) == AfterAll(old(FlatsOf(files)), ops)
        invariant forall f :: f in files && f !in old(files) ==> fresh(f)
        invariant forall h :: h in store.view.table && h !in old(store.view.table) ==> fresh(h)
      {
        assert forall f :: f in files ==> f in old(files) || fresh(f);
        assert forall h :: h in store.view.table ==> h in old(store.view.table.Keys) || fresh(h);
        assert forall i :: 0 <= i < |files| ==> files[i] in old(files) || fresh(files[i]);
        assert ops[n..][0] == ops[n] && ops[n..][1..] == ops[n + 1..];
        ok := Apply(ops[n]);
        if !ok {
          return;
        }
      }
    }
  }

  /** A session on a new file system: any run that meets no assertion leaves exactly the byte
      arrays the same run leaves in the reference model, unless the allocator aborts it. */
  method Session(sha: Chunk -> Digest, ops: seq<Op>) returns (fs: FileSystem, ok: bool)
    requires CollisionFree(sha) && Runs([], ops)
    ensures ok ==> fs.Valid() && fs.store.sha == sha && FlatsOf(fs.files) == AfterAll([], ops)
    ensures !ok ==> |fs.store.accounting.bucketsInUse| > MAX_BUCKETS
  {
    hide CollisionFree, Runs, AfterAll;
    fs := new FileSystem(sha);
    NoFlats(fs.files);
    ok := fs.Run(ops);
  }

  lemma NoFlats(files: seq<File>)
    requires files == []
    ensures FlatsOf(files) == []
  {
  }
}
