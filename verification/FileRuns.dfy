/** What runs of file operations do, byte by byte: what one operation changes, which byte a later
    read finds, and which runs meet no assertion. */
module FileRuns {
  import opened Chunks
  import opened FlatFiles
  import opened Pool
  import opened StoreState
  import opened Files
  import opened FileSystem
  import FS = FileSystem

  // ---------- one operation ----------

  /** What one operation does to the files: which of them change, their sizes, and byte i. */
  lemma AfterOne(flats: seq<FlatFile>, op: Op, i: nat)
    requires op.Names(|flats|) && !Aborts(flats, op)
    ensures var t := FS.After(flats, op);
            match op
            case Create => t == flats + [FlatFile(0, [])]
            case Unlink(f) => t == flats[..f] + flats[f + 1..]
            case Write(f, offset, buf) =>
              && |t| == |flats| && t[..f] == flats[..f] && t[f + 1..] == flats[f + 1..]
              && t[f].size == (if offset + |buf| > flats[f].size then offset + |buf| else flats[f].size)
              && offset + |buf| <= |t[f].bytes| && |flats[f].bytes| <= |t[f].bytes|
              && (i < |t[f].bytes| ==>
                    t[f].bytes[i] == if offset <= i < offset + |buf| then buf[i - offset]
                                     else if i < |flats[f].bytes| then flats[f].bytes[i] else 0)
            case Truncate(f, size) =>
              && |t| == |flats| && t[..f] == flats[..f] && t[f + 1..] == flats[f + 1..]
              && t[f].size == size && |t[f].bytes| == 4096 * ((size + 4095) / 4096)
              && (i < |t[f].bytes| ==> t[f].bytes[i] == if i < |flats[f].bytes| then flats[f].bytes[i] else 0)
            case SwapContent(f, content) =>
              && |t| == |flats| && t[..f] == flats[..f] && t[f + 1..] == flats[f + 1..]
              && t[f].size == |content| <= |t[f].bytes| < |content| + 4096 && |t[f].bytes| % 4096 == 0
              && (i < |t[f].bytes| ==> t[f].bytes[i] == if i < |content| then content[i] else 0)
  {
    hide Written, Truncated, Swapped;
    match op
    case Create =>
    case Unlink(f) =>
    case Write(f, offset, buf) =>
      WrittenSize(flats[f], offset, buf);
      WrittenCovers(flats[f], offset, buf);
      if i < |Written(flats[f], offset, buf).bytes| { WriteChangesItsRange(flats[f], offset, buf, i); }
    case Truncate(f, size) => TruncateKeepsBytes(flats[f], size, i);
    case SwapContent(f, content) => SwapLeavesContent(content, i);
  }

  lemma WrittenCovers(f: FlatFile, offset: nat, buf: seq<Byte>)
    requires !LengthAborts(f, offset, |buf|)
    ensures offset + |buf| <= |Written(f, offset, buf).bytes| && |f.bytes| <= |Written(f, offset, buf).bytes|
  {
  }

  // ---------- runs ----------

  /** A run meets no assertion exactly when none of its operations does in the state the ones before
      it leave, and each operation works on that state. */
  lemma {:induction false} RunsNext(flats: seq<FlatFile>, ops: seq<Op>, op: Op)
    ensures Runs(flats, ops + [op]) <==>
              Runs(flats, ops) && op.Names(|AfterAll(flats, ops)|) && !Aborts(AfterAll(flats, ops), op)
    ensures Runs(flats, ops + [op]) ==> AfterAll(flats, ops + [op]) == FS.After(AfterAll(flats, ops), op)
    decreases |ops|
  {
    hide Aborts, FS.After;
    if ops == [] {
      assert ops + [op] == [op] && [op][1..] == [];
      NoOps(flats, op);
    } else {
      assert (ops + [op])[0] == ops[0] && (ops + [op])[1..] == ops[1..] + [op];
      if ops[0].Names(|flats|) && !Aborts(flats, ops[0]) {
        RunsNext(FS.After(flats, ops[0]), ops[1..], op);
      }
    }
  }

  lemma NoOps(flats: seq<FlatFile>, op: Op)
    ensures Runs(flats, []) && AfterAll(flats, []) == flats
    ensures Runs(flats, [op]) <==> op.Names(|flats|) && !Aborts(flats, op)
    ensures Runs(flats, [op]) ==> AfterAll(flats, [op]) == FS.After(flats, op)
  {
    assert [op][1..] == [];
    if op.Names(|flats|) && !Aborts(flats, op) { assert Runs(FS.After(flats, op), []); }
  }

  /** The operation leaves byte i of file k, and its number, alone. */
  predicate Spares(op: Op, k: nat, i: nat) {
    match op
    case Create => true
    case Write(f, offset, buf) => f != k || i < offset || offset + |buf| <= i
    case Truncate(f, size) => f != k || i < size
    case SwapContent(f, _) => f != k
    case Unlink(f) => f > k
  }

  /** A byte that no operation touches stays. */
  lemma {:induction false} Untouched(flats: seq<FlatFile>, ops: seq<Op>, k: nat, i: nat)
    requires Runs(flats, ops) && forall op :: op in ops ==> Spares(op, k, i)
    requires k < |flats| && i < flats[k].size && i < |flats[k].bytes|
    ensures var t := AfterAll(flats, ops);
            k < |t| && i < t[k].size && i < |t[k].bytes| && t[k].bytes[i] == flats[k].bytes[i]
    decreases |ops|
  {
    hide FS.After, Aborts;
    if ops != [] {
      AfterOne(flats, ops[0], i);
      var t := FS.After(flats, ops[0]);
      SparedAt(flats, ops[0], t, k, i);
      Untouched(t, ops[1..], k, i);
    }
  }

  lemma SparedAt(flats: seq<FlatFile>, op: Op, t: seq<FlatFile>, k: nat, i: nat)
    requires op.Names(|flats|) && !Aborts(flats, op) && t == FS.After(flats, op) && Spares(op, k, i)
    requires k < |flats| && i < flats[k].size && i < |flats[k].bytes|
    ensures k < |t| && i < t[k].size && i < |t[k].bytes| && t[k].bytes[i] == flats[k].bytes[i]
  {
    hide Written, Truncated, Swapped;
    AfterOne(flats, op, i);
    if !op.Create? && !op.Unlink? && op.file != k {
      assert if k < op.file then t[..op.file][k] == flats[..op.file][k]
             else t[op.file + 1..][k - op.file - 1] == flats[op.file + 1..][k - op.file - 1];
    }
  }

  /** A byte that was written is there until an operation touches it again, whatever is done to
      other bytes and to other files meanwhile. */
  lemma LastWriteStays(flats: seq<FlatFile>, k: nat, offset: nat, buf: seq<Byte>, ops: seq<Op>, i: nat)
    requires Runs(flats, [Op.Write(k, offset, buf)] + ops) && forall op :: op in ops ==> Spares(op, k, i)
    requires offset <= i < offset + |buf|
    ensures var t := AfterAll(flats, [Op.Write(k, offset, buf)] + ops);
            k < |t| && i < t[k].size && i < |t[k].bytes| && t[k].bytes[i] == buf[i - offset]
  {
    hide FS.After, Aborts;
    var all := [Op.Write(k, offset, buf)] + ops;
    assert all[0] == Op.Write(k, offset, buf) && all[1..] == ops;
    AfterOne(flats, all[0], i);
    Untouched(FS.After(flats, all[0]), ops, k, i);
  }

  // ---------- runs that meet no assertion ----------

  /** The list has no slot more than the size asks for. */
  predicate Tight(f: FlatFile) {
    |f.bytes| == 4096 * ((f.size + 4095) / 4096)
  }

  /** Writes start at a chunk, and no swapped content has a piece of zeros. */
  ghost predicate Aligned(op: Op) {
    match op
    case Write(_, offset, _) => offset % 4096 == 0
    case SwapContent(_, content) => !SwapAborts(content)
    case _ => true
  }

  /** Every operation names a file there is, given how many there are at first. */
  predicate NamesFiles(n: nat, ops: seq<Op>)
    decreases |ops|
  {
    ops == [] ||
    (ops[0].Names(n) && NamesFiles(if ops[0].Create? then n + 1 else if ops[0].Unlink? then n - 1 else n, ops[1..]))
  }

  lemma AlignedKeepsTight(flats: seq<FlatFile>, op: Op)
    requires op.Names(|flats|) && Aligned(op) && forall k :: 0 <= k < |flats| ==> Tight(flats[k])
    ensures !Aborts(flats, op) && forall k :: 0 <= k < |FS.After(flats, op)| ==> Tight(FS.After(flats, op)[k])
    ensures |FS.After(flats, op)| == if op.Create? then |flats| + 1 else if op.Unlink? then |flats| - 1 else |flats|
  {
    match op
    case Create =>
    case Unlink(f) =>
    case Write(f, offset, buf) => AlignedWrite(flats[f], offset, buf);
    case Truncate(f, size) => TruncateKeepsBytes(flats[f], size, 0);
    case SwapContent(f, content) => SwapLeavesContent(content, 0);
  }

  lemma AlignedWrite(f: FlatFile, offset: nat, buf: seq<Byte>)
    requires Tight(f) && offset % 4096 == 0
    ensures !LengthAborts(f, offset, |buf|) && Tight(Written(f, offset, buf))
  {
    ChunksForMonotone(f.size, SizeAfter(f, offset, |buf|));
    WrittenSize(f, offset, buf);
  }

  /** With aligned writes alone the length assertion never fires: every run of them from mkfs that
      names files there are is one the reference model describes. */
  lemma {:induction false} AlignedRunsGo(flats: seq<FlatFile>, ops: seq<Op>)
    requires NamesFiles(|flats|, ops) && (forall op :: op in ops ==> Aligned(op))
    requires forall k :: 0 <= k < |flats| ==> Tight(flats[k])
    ensures Runs(flats, ops) && forall k :: 0 <= k < |AfterAll(flats, ops)| ==> Tight(AfterAll(flats, ops)[k])
    decreases |ops|
  {
    hide Aborts, FS.After, Tight, Aligned;
    if ops != [] {
      AlignedKeepsTight(flats, ops[0]);
      AlignedRunsGo(FS.After(flats, ops[0]), ops[1..]);
    }
  }

  // ---------- the files themselves ----------

  /** Byte i of a file is byte i % 4096 of the chunk in slot i / 4096. */
  lemma ByteOfFile(fs: FileSystem, k: nat, i: nat)
    requires k < |fs.files|
    ensures var f := fs.files[k];
            && FlatsOf(fs.files)[k].size == f.size && |FlatsOf(fs.files)[k].bytes| == 4096 * |f.hashList|
            && (i < 4096 * |f.hashList| ==> FlatsOf(fs.files)[k].bytes[i] == f.hashList[i / 4096].content[i % 4096])
  {
    var list := fs.files[k].hashList;
    if i < 4096 * |list| {
      var slot, at := i / 4096, i % 4096;
      BytesOfSlot(list, slot, at, at + 1);
      hide Bytes;
      assert Bytes(list)[Span(slot) + at..Span(slot) + (at + 1)][0] == list[slot].content[at..at + 1][0];
    }
  }

  /** What was swapped in is what a read of the whole file returns. */
  method SwapThenRead(fs: FileSystem, k: nat, content: seq<Byte>) returns (buf: seq<Byte>, ok: bool)
    requires fs.Valid() && k < |fs.files| && !SwapAborts(content)
    modifies fs.files[k], fs.store, fs.store.accounting.Repr, fs.store.view.table.Keys
    ensures ok ==> buf == content
    ensures ok ==> fs.Valid()
    ensures !ok ==> |fs.store.accounting.bucketsInUse| > MAX_BUCKETS
  {
    hide fs.Valid, Swapped, ReadLength, SwapAborts;
    buf := [];
    ok := fs.SwapFile(k, content);
    if ok {
      SwapLeavesContent(content, 0);
      ReadAfterSwap(content);
      buf := fs.ReadFile(k, |content|, 0);
    }
  }
}
