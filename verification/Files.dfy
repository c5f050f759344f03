/** Files as lists of shared hash objects (src/modules/filesystem/file.cpp). */
module Files {
  import opened Pool
  import opened Wrappers
  import opened Chunks
  import opened FlatFiles
  import opened StoreState
  import opened Store

  /** The bytes of all the chunks a list names. */
  ghost function Bytes(hashes: seq<Hash>): (r: seq<Byte>)
    ensures |r| == Span(|hashes|)
  {
    if hashes == [] then [] else Bytes(hashes[..|hashes| - 1]) + hashes[|hashes| - 1].content
  }

  lemma BytesPush(hashes: seq<Hash>, h: Hash)
    ensures Bytes(hashes + [h]) == Bytes(hashes) + h.content
  {
    assert (hashes + [h])[..|hashes|] == hashes;
  }

  lemma {:induction false} BytesConcat(a: seq<Hash>, b: seq<Hash>)
    ensures Bytes(a + b) == Bytes(a) + Bytes(b)
  {
    if b == [] {
      assert a + b == a;
    } else {
      var front, last := b[..|b| - 1], b[|b| - 1];
      BytesConcat(a, front);
      assert a + b == (a + front) + [last];
      BytesPush(a + front, last);
      assert b == front + [last];
    }
  }

  lemma {:induction false} BytesOfZeros(zero: Hash, n: nat)
    requires zero.content == ZERO_CHUNK
    ensures Bytes(Repeat(zero, n)) == Zeros(Span(n))
  {
    if n == 0 {
      assert Repeat(zero, 0) == [];
    } else {
      BytesOfZeros(zero, n - 1);
      assert Repeat(zero, n) == Repeat(zero, n - 1) + [zero];
      BytesPush(Repeat(zero, n - 1), zero);
    }
  }

  lemma BytesNext(hashes: seq<Hash>, i: nat)
    requires i < |hashes|
    ensures Bytes(hashes[..i + 1]) == Bytes(hashes[..i]) + hashes[i].content
  {
    assert hashes[..i + 1] == hashes[..i] + [hashes[i]];
    BytesPush(hashes[..i], hashes[i]);
  }

  // ---------- the claims of a write ----------

  /** While a write replaces slots: every replaced hash is still claimed for its old slot,
      every new hash already for its new one. */
  ghost predicate Replacing(refs: multiset<Hash>, now: multiset<Hash>, hashes: seq<Hash>, out: seq<Hash>, removed: seq<Hash>) {
    && multiset(hashes) <= refs <= now
    && now + multiset(hashes) == refs + multiset(out) + multiset(removed)
  }

  lemma NothingReplaced(refs: multiset<Hash>, hashes: seq<Hash>)
    requires multiset(hashes) <= refs
    ensures Replacing(refs, refs, hashes, hashes, [])
  {
  }

  lemma ReplaceSlot(refs: multiset<Hash>, now: multiset<Hash>, hashes: seq<Hash>, out: seq<Hash>, removed: seq<Hash>, i: nat, h: Hash)
    requires Replacing(refs, now, hashes, out, removed) && i < |out|
    ensures Replacing(refs, now + multiset{h}, hashes, out[i := h], removed + [out[i]])
  {
    assert out == out[..i] + [out[i]] + out[i + 1..];
    assert out[i := h] == out[..i] + [h] + out[i + 1..];
    assert multiset(out[i := h]) + multiset{out[i]} == multiset(out) + multiset{h};
    Exchange(refs, now, multiset(hashes), multiset(out), multiset(removed), multiset(out[i := h]), out[i], h);
  }

  /** A slot not yet reached is still claimed. */
  lemma ClaimedSlot(refs: multiset<Hash>, now: multiset<Hash>, hashes: seq<Hash>, out: seq<Hash>, removed: seq<Hash>, i: nat)
    requires Replacing(refs, now, hashes, out, removed)
    requires |out| == |hashes| && i < |hashes| && out[i] == hashes[i]
    ensures out[i] in now
  {
    assert hashes[i] in multiset(hashes);
  }

  lemma Exchange<T>(refs: multiset<T>, now: multiset<T>, old_list: multiset<T>, list: multiset<T>, removed: multiset<T>,
                    list': multiset<T>, x: T, y: T)
    requires now + old_list == refs + list + removed
    requires list' + multiset{x} == list + multiset{y}
    ensures now + multiset{y} + old_list == refs + list' + (removed + multiset{x})
  {
    forall z ensures (now + multiset{y} + old_list)[z] == (refs + list' + (removed + multiset{x}))[z] {
      assert (now + old_list)[z] == (refs + list + removed)[z];
      assert (list' + multiset{x})[z] == (list + multiset{y})[z];
    }
  }

  lemma Cancel<T>(refs: multiset<T>, now: multiset<T>, old_part: multiset<T>, part: multiset<T>,
                  removed: multiset<T>, rest: multiset<T>)
    requires rest + old_part <= refs
    requires now + old_part == refs + part + removed
    ensures removed <= now
    ensures now - removed == refs - (rest + old_part) + (rest + part)
  {
    forall z ensures removed[z] <= now[z] && (now - removed)[z] == (refs - (rest + old_part) + (rest + part))[z] {
      assert (now + old_part)[z] == (refs + part + removed)[z];
      assert (rest + old_part)[z] <= refs[z];
    }
  }

  /** Replacing list[first..] inside a longer list. */
  lemma ReplaceRange(refs: multiset<Hash>, now: multiset<Hash>, list: seq<Hash>, first: nat, last: nat,
                     hashes: seq<Hash>, out: seq<Hash>, removed: seq<Hash>)
    requires first <= last <= |list| && hashes == list[first..last] && |out| == |hashes|
    requires multiset(list) <= refs
    requires Replacing(refs, now, hashes, out, removed)
    ensures multiset(removed) <= now
    ensures Exchanged(refs, list, now - multiset(removed), Splice(list, first, out))
  {
    var rest := list[..first] + list[last..];
    assert list == list[..first] + hashes + list[last..];
    assert multiset(list) == multiset(rest) + multiset(hashes);
    SpliceClaims(list, first, out);
    Cancel(refs, now, multiset(hashes), multiset(out), multiset(removed), multiset(rest));
  }

  lemma SpliceClaims(list: seq<Hash>, first: nat, out: seq<Hash>)
    requires first + |out| <= |list|
    ensures multiset(Splice(list, first, out)) == multiset(list[..first] + list[first + |out|..]) + multiset(out)
  {
    assert Splice(list, first, out) == list[..first] + out + list[first + |out|..];
  }

  /** The slots a list lacks, all holding the zero hash. */
  function Missing(list: seq<Hash>, zero: Hash, n: nat): seq<Hash> {
    if |list| < n then Repeat(zero, n - |list|) else []
  }

  lemma GrowBytes(list: seq<Hash>, zero: Hash, n: nat)
    requires zero.content == ZERO_CHUNK
    ensures Bytes(list + Missing(list, zero, n)) == PadTo(Bytes(list), Span(n))
  {
    BytesConcat(list, Missing(list, zero, n));
    if |list| < n {
      BytesOfZeros(zero, n - |list|);
    }
  }

  /** The bytes the first i slots of a write take. */
  function Consumed(start: nat, length: nat, i: nat): nat {
    Min(length, Max(0, Span(i) - start))
  }

  lemma ConsumedStep(start: nat, length: nat, i: nat)
    requires start < CHUNK_SIZE
    ensures var pos, next := Consumed(start, length, i), Consumed(start, length, i + 1);
            && pos <= next <= length
            && next - pos == Min(length - pos, CHUNK_SIZE - Max(start - Span(i), 0))
            && (i > 0 ==> start <= Span(i) && pos == Min(length, Span(i) - start))
            && (i == 0 ==> pos == 0)
  {
  }

  /** One slot of a write: the slots before it and the slot itself. */
  lemma SpliceSlot(prefix: seq<Byte>, chunk: Chunk, start: nat, buf: seq<Byte>, i: nat)
    requires |prefix| == Span(i) && start < CHUNK_SIZE
    ensures var pos, next := Consumed(start, |buf|, i), Consumed(start, |buf|, i + 1);
            var at := Max(start - Span(i), 0);
            && pos <= next && at + (next - pos) <= CHUNK_SIZE
            && Splice(prefix + chunk, start, buf[..next])
               == Splice(prefix, Min(start, |prefix|), buf[..pos]) + Splice(chunk, at, buf[pos..next])
  {
    var pos, next := Consumed(start, |buf|, i), Consumed(start, |buf|, i + 1);
    ConsumedStep(start, |buf|, i);
    hide Consumed;
    TakeTwice(buf, next, pos);
    SpliceSplit(prefix, chunk, start, buf[..next]);
    hide Splice;
  }

  /** The first i slots of the range hold the written bytes, the others are as they were. */
  ghost predicate SlotsDone(hashes: seq<Hash>, out: seq<Hash>, start: nat, buf: seq<Byte>, i: nat) {
    && |out| == |hashes| && i <= |hashes| && out[i..] == hashes[i..]
    && start < CHUNK_SIZE
    && Bytes(out[..i]) == Splice(Bytes(hashes[..i]), Min(start, Span(i)), buf[..Consumed(start, |buf|, i)])
  }

  lemma NoSlotsDone(hashes: seq<Hash>, start: nat, buf: seq<Byte>)
    requires start < CHUNK_SIZE
    ensures SlotsDone(hashes, hashes, start, buf, 0)
  {
  }

  lemma NextSlot(hashes: seq<Hash>, out: seq<Hash>, start: nat, buf: seq<Byte>, i: nat)
    requires SlotsDone(hashes, out, start, buf, i) && i < |hashes|
    ensures |out| == |hashes| && out[i] == hashes[i] && out[i + 1..] == hashes[i + 1..]
  {
    hide Bytes;
    assert out[i] == out[i..][0] && hashes[i] == hashes[i..][0];
    assert out[i + 1..] == out[i..][1..];
    assert hashes[i + 1..] == hashes[i..][1..];
  }

  /** `after` names the chunk of `before` with its part of the buffer spliced in. */
  ghost predicate SlotWritten(before: Hash, after: Hash, start: nat, buf: seq<Byte>, i: nat) {
    var pos, next := Consumed(start, |buf|, i), Consumed(start, |buf|, i + 1);
    var at := Max(start - Span(i), 0);
    && pos <= next && at + (next - pos) <= CHUNK_SIZE
    && Splice(before.content, at, buf[pos..next]) == after.content
  }

  /** Slot i is done once it holds the spliced chunk. */
  lemma SlotDone(hashes: seq<Hash>, out: seq<Hash>, h: Hash, start: nat, buf: seq<Byte>, i: nat)
    requires SlotsDone(hashes, out, start, buf, i) && i < |hashes| == |out|
    requires out[i] == hashes[i] && out[i + 1..] == hashes[i + 1..]
    requires SlotWritten(hashes[i], h, start, buf, i)
    ensures SlotsDone(hashes, out[i := h], start, buf, i + 1)
  {
    hide Bytes;
    var out' := out[i := h];
    assert out'[..i] == out[..i] && out'[i + 1..] == out[i + 1..];
    BytesNext(hashes, i);
    BytesNext(out', i);
    SpliceSlot(Bytes(hashes[..i]), hashes[i].content, start, buf, i);
    hide Splice, Consumed;
  }

  lemma SpliceNothing<T>(s: seq<T>, start: nat)
    requires start <= |s|
    ensures Splice(s, start, []) == s
  {
  }

  lemma AllSlotsDone(hashes: seq<Hash>, out: seq<Hash>, start: nat, buf: seq<Byte>)
    requires SlotsDone(hashes, out, start, buf, |hashes|)
    requires start + |buf| <= Span(|hashes|)
    ensures |out| == |hashes| && Bytes(out) == Splice(Bytes(hashes), start, buf)
  {
    assert out[..|out|] == out && hashes[..|hashes|] == hashes && buf[..|buf|] == buf;
  }

  // ---------- the claims and bytes of a whole operation ----------

  /** An operation on one file exchanges the claims of its old list for those of its new one. */
  ghost predicate Exchanged(refs: multiset<Hash>, list: seq<Hash>, refs': multiset<Hash>, list': seq<Hash>) {
    && multiset(list) <= refs
    && refs' == refs - multiset(list) + multiset(list')
  }

  lemma ExchangedTwice(r0: multiset<Hash>, l0: seq<Hash>, r1: multiset<Hash>, l1: seq<Hash>, r2: multiset<Hash>, l2: seq<Hash>)
    requires Exchanged(r0, l0, r1, l1) && Exchanged(r1, l1, r2, l2)
    ensures Exchanged(r0, l0, r2, l2)
  {
    assert r1 - multiset(l1) == r0 - multiset(l0);
  }

  lemma GrowExchanged(refs: multiset<Hash>, list: seq<Hash>, extra: seq<Hash>)
    requires multiset(list) <= refs
    ensures Exchanged(refs, list, refs + multiset(extra), list + extra)
    ensures multiset(list + extra) <= refs + multiset(extra)
  {
    Cancel(refs, refs + multiset(extra), multiset{}, multiset(extra), multiset{}, multiset(list));
    assert multiset(list) + multiset{} == multiset(list);
  }

  /** Putting the new hashes of a range into the list and releasing the replaced ones. */
  lemma RangeReplaced(refs: multiset<Hash>, now: multiset<Hash>, list: seq<Hash>, first: nat, last: nat, hashes: seq<Hash>,
                      out: seq<Hash>, removed: seq<Hash>, start: nat, buf: seq<Byte>, offset: nat)
    requires first <= last <= |list| && hashes == list[first..last] && |out| == |hashes|
    requires multiset(list) <= refs && Replacing(refs, now, hashes, out, removed)
    requires removed == [] ==> out == hashes
    requires start + |buf| <= Span(|hashes|) && offset == Span(first) + start
    requires Bytes(out) == Splice(Bytes(hashes), start, buf)
    ensures multiset(removed) <= now
    ensures Exchanged(refs, list, now - multiset(removed), Splice(list, first, out))
    ensures offset + |buf| <= |Bytes(list)| && Bytes(Splice(list, first, out)) == Splice(Bytes(list), offset, buf)
    ensures removed == [] ==> Splice(list, first, out) == list && now - multiset(removed) == now
  {
    hide Bytes, Replacing, Splice, Exchanged, Span;
    ReplaceRange(refs, now, list, first, last, hashes, out, removed);
    SpliceSlots(list, first, last, hashes, out, start, buf);
    if removed == [] {
      SpliceSame(list, first, last);
      NothingRemoved(now, removed);
    }
  }

  lemma NothingRemoved(now: multiset<Hash>, removed: seq<Hash>)
    requires removed == []
    ensures now - multiset(removed) == now
  {
  }

  lemma SpliceSame<T>(list: seq<T>, first: nat, last: nat)
    requires first <= last <= |list|
    ensures Splice(list, first, list[first..last]) == list
  {
  }

  lemma SliceClaims(list: seq<Hash>, from: nat, to: nat)
    requires from <= to <= |list|
    ensures multiset(list[from..to]) <= multiset(list)
  {
    assert list == list[..from] + list[from..to] + list[to..];
  }

  /** The range a write asks for exists and holds all its bytes. */
  lemma WriteFits(f: FlatFile, offset: nat, length: nat, slots: nat)
    requires slots == SlotsFor(SizeAfter(f, offset, length), offset)
    ensures ChunkIndex(offset) + SlotsFor(length, offset) <= slots
    ensures ChunkOffset(offset) + length <= Span(SlotsFor(length, offset))
    ensures offset == Span(ChunkIndex(offset)) + ChunkOffset(offset)
  {
    ChunksForMonotone(offset + length, SizeAfter(f, offset, length));
    if ChunkOffset(offset) == 0 {
      assert ChunkIndex(offset) + ChunksFor(length) == ChunksFor(offset + length);
    } else {
      assert ChunkIndex(offset) + ChunksFor(length) <= ChunksFor(offset + length);
    }
  }

  lemma WrittenBytes(f: FlatFile, offset: nat, buf: seq<Byte>, size: nat, slots: nat, padded: seq<Byte>)
    requires !LengthAborts(f, offset, |buf|)
    requires size == SizeAfter(f, offset, |buf|) && slots == SlotsFor(size, offset)
    requires padded == PadTo(f.bytes, Span(slots))
    ensures |padded| == Span(slots) && offset + |buf| <= |padded|
    ensures Written(f, offset, buf) == FlatFile(size, Splice(padded, offset, buf))
  {
    WriteFits(f, offset, |buf|, slots);
  }

  lemma SpliceMiddle<T>(a: seq<T>, m: seq<T>, b: seq<T>, start: nat, buf: seq<T>)
    requires start + |buf| <= |m|
    ensures Splice(a + m + b, |a| + start, buf) == a + Splice(m, start, buf) + b
  {
  }

  lemma SplitAround<T>(list: seq<T>, first: nat, last: nat)
    requires first <= last <= |list|
    ensures list == list[..first] + list[first..last] + list[last..]
  {
  }

  lemma SpliceWhole<T>(m: seq<T>, buf: seq<T>)
    requires |buf| == |m|
    ensures Splice(m, 0, buf) == buf
  {
  }

  lemma BytesOfThree(a: seq<Hash>, m: seq<Hash>, b: seq<Hash>)
    ensures Bytes(a + m + b) == Bytes(a) + Bytes(m) + Bytes(b)
  {
    BytesConcat(a + m, b);
    BytesConcat(a, m);
  }

  lemma SpliceBetween(a: seq<Hash>, hashes: seq<Hash>, b: seq<Hash>, out: seq<Hash>, start: nat, buf: seq<Byte>)
    requires |out| == |hashes| && start + |buf| <= Span(|hashes|)
    requires Bytes(out) == Splice(Bytes(hashes), start, buf)
    ensures Bytes(Splice(a + hashes + b, |a|, out)) == Splice(Bytes(a + hashes + b), Span(|a|) + start, buf)
  {
    hide Bytes, Splice;
    SpliceMiddle(a, hashes, b, 0, out);
    SpliceWhole(hashes, out);
    BytesOfThree(a, hashes, b);
    BytesOfThree(a, out, b);
    SpliceMiddle(Bytes(a), Bytes(hashes), Bytes(b), start, buf);
  }

  /** Splicing slots into a list splices bytes into its bytes. */
  lemma SpliceSlots(list: seq<Hash>, first: nat, last: nat, hashes: seq<Hash>, out: seq<Hash>, start: nat, buf: seq<Byte>)
    requires first <= last <= |list| && hashes == list[first..last] && |out| == |hashes|
    requires start + |buf| <= Span(|hashes|)
    requires Bytes(out) == Splice(Bytes(hashes), start, buf)
    ensures Span(first) + start + |buf| <= |Bytes(list)|
    ensures Bytes(Splice(list, first, out)) == Splice(Bytes(list), Span(first) + start, buf)
  {
    hide Bytes, Splice;
    var a, b := list[..first], list[last..];
    SplitAround(list, first, last);
    SpliceBetween(a, hashes, b, out, start, buf);
  }

  // ---------- truncate, swapContent and read ----------

  lemma BytesTake(list: seq<Hash>, n: nat)
    requires n <= |list|
    ensures Bytes(list[..n]) == Bytes(list)[..Span(n)]
  {
    assert list == list[..n] + list[n..];
    BytesConcat(list[..n], list[n..]);
  }

  lemma CutExchanged(refs: multiset<Hash>, list: seq<Hash>, n: nat)
    requires multiset(list) <= refs && n <= |list|
    ensures multiset(list[n..]) <= refs
    ensures Exchanged(refs, list, refs - multiset(list[n..]), list[..n])
  {
    assert list == list[..n] + list[n..];
    Cancel(refs, refs, multiset(list[n..]), multiset{}, multiset(list[n..]), multiset(list[..n]));
    assert multiset(list[..n]) + multiset{} == multiset(list[..n]);
  }

  lemma SwapExchanged(refs: multiset<Hash>, list: seq<Hash>, list': seq<Hash>)
    requires multiset(list) <= refs
    ensures multiset(list) <= refs + multiset(list')
    ensures Exchanged(refs, list, refs + multiset(list') - multiset(list), list')
  {
  }

  lemma EmptyList(content: seq<Byte>)
    ensures Bytes([]) == PadTo(content[..Min(|content|, Span(0))], Span(0))
  {
  }

  lemma ExchangedClaims(refs: multiset<Hash>, list: seq<Hash>, refs': multiset<Hash>, list': seq<Hash>)
    requires Exchanged(refs, list, refs', list')
    ensures multiset(list') <= refs'
  {
  }

  lemma SwapPiece(content: seq<Byte>, done: seq<Byte>, k: nat)
    requires k < ChunksFor(|content|)
    requires done == PadTo(content[..Min(|content|, Span(k))], Span(k))
    ensures var piece := Piece(content, k);
            && Splice(ZERO_CHUNK, 0, piece) == PadTo(piece, CHUNK_SIZE)
            && done + PadTo(piece, CHUNK_SIZE) == PadTo(content[..Min(|content|, Span(k + 1))], Span(k + 1))
  {
  }

  /** The bytes of one slot within the bytes of the list. */
  lemma BytesOfSlot(hashes: seq<Hash>, i: nat, from: nat, to: nat)
    requires i < |hashes| && from <= to <= CHUNK_SIZE
    ensures Span(i) + to <= |Bytes(hashes)|
    ensures Bytes(hashes)[Span(i) + from..Span(i) + to] == hashes[i].content[from..to]
  {
    BytesTake(hashes, i);
    BytesTake(hashes, i + 1);
    BytesNext(hashes, i);
    hide Bytes;
    assert Bytes(hashes)[..Span(i + 1)] == Bytes(hashes)[..Span(i)] + hashes[i].content;
    assert Bytes(hashes)[Span(i) + from..Span(i) + to] == Bytes(hashes)[..Span(i + 1)][Span(i) + from..Span(i) + to];
  }

  lemma BytesRange(list: seq<Hash>, first: nat, n: nat)
    requires first + n <= |list|
    ensures Span(first) + Span(n) <= |Bytes(list)|
    ensures Bytes(list[first..first + n]) == Bytes(list)[Span(first)..Span(first) + Span(n)]
  {
    assert list[..first + n] == list[..first] + list[first..first + n];
    BytesConcat(list[..first], list[first..first + n]);
    BytesTake(list, first);
    BytesTake(list, first + n);
  }

  lemma BytesInRange(list: seq<Hash>, first: nat, n: nat, start: nat, k: nat)
    requires first + n <= |list| && start + k <= Span(n)
    ensures Span(first) + start + k <= |Bytes(list)| && start + k <= |Bytes(list[first..first + n])|
    ensures Bytes(list[first..first + n])[start..start + k] == Bytes(list)[Span(first) + start..Span(first) + start + k]
  {
    BytesRange(list, first, n);
    SubSlice(Bytes(list), Span(first), Span(first) + Span(n), start, k);
  }

  /** The slots a read asks for exist. */
  lemma ReadInList(f: FlatFile, list: seq<Hash>, offset: nat, size: nat, m: nat)
    requires Shape(f) && f.bytes == Bytes(list) && offset < f.size && m == Min(f.size - offset, size)
    ensures ChunkIndex(offset) + ChunksFor(m) <= |list|
  {
    ReadStaysInList(f, offset, size);
    SpanIndex(|list|, offset);
  }

  lemma JoinSlices(bytes: seq<Byte>, start: nat, n: nat, m: nat, a: seq<Byte>, b: seq<Byte>)
    requires n <= m && start + m <= |bytes| && |a| == n
    requires a != [] ==> a == bytes[start..start + n]
    requires b == bytes[start + n..start + m]
    ensures a + b == bytes[start..start + m]
  {
  }

  /** What the slots of a read hold is what the read promises. */
  lemma ReadRange(f: FlatFile, offset: nat, size: nat, m: nat, n: nat)
    requires Shape(f) && offset < f.size && m == Min(f.size - offset, size) && n == ChunksFor(m)
    ensures Consumed(ChunkOffset(offset), m, n) == ReadLength(f, offset, size)
    ensures offset == Span(ChunkIndex(offset)) + ChunkOffset(offset)
  {
  }

  class File {
    var hashList: seq<Hash>
    var size: nat

    ghost function Flat(): FlatFile
      reads this
    {
      FlatFile(size, Bytes(hashList))
    }

    /** A file that was just made. */
    constructor ()
      ensures hashList == [] && size == 0 && Flat() == EMPTY
    {
      hashList, size := [], 0;
    }

    lemma NotInFootprint(st: Storage)
      ensures this !in st.Footprint()
    {
    }

    /** The part of writeInner and truncateInner that lengthens the list with zero chunks. */
    method Grow(st: Storage, n: nat)
      requires st.Valid()
      modifies this`hashList, st, st.zeroHash
      ensures old(st.view.events) <= st.view.events
      ensures st.Valid() && st.view.table.Keys == old(st.view.table.Keys)
      ensures size == old(size)
      ensures hashList == old(hashList + Missing(hashList, st.zeroHash, n))
      ensures st.view.refs == old(st.view.refs + multiset(Missing(hashList, st.zeroHash, n)))
    {
      hide st.Valid;
      NotInFootprint(st);
      if |hashList| < n {
        var addedChunks := n - |hashList|;
        hashList := hashList + Repeat(st.zeroHash, addedChunks);
        st.ClaimZero(addedChunks);
      }
    }

    /** One round of the loop of writeInner: write what belongs to slot i, if anything. */
    static method WriteSlot(st: Storage, h: Hash, start: nat, buf: seq<Byte>, i: nat, offsetInBuf: nat)
      returns (newHash: Option<Hash>, newOffsetInBuf: nat)
      requires st.Valid() && h in st.view.refs && start < CHUNK_SIZE
      requires offsetInBuf == Consumed(start, |buf|, i)
      modifies st, st.accounting.Repr, st.view.table.Keys
      ensures old(st.view.events) <= st.view.events
      ensures st.Valid() && (forall g :: g in st.view.table && g !in old(st.view.table) ==> fresh(g))
      ensures newOffsetInBuf == Consumed(start, |buf|, i + 1)
      ensures SlotWritten(h, if newHash.Some? then newHash.value else h, start, buf, i)
      ensures st.view.refs == old(st.view.refs) + (if newHash.Some? then multiset{newHash.value} else multiset{})
    {
      hide st.Valid;
      ConsumedStep(start, |buf|, i);
      hide Consumed;
      newHash, newOffsetInBuf := None, offsetInBuf;
      var size := |buf| - offsetInBuf;
      var newOffset := Max(start - Span(i), 0);
      if size > 0 {
        var newSize := Min(size, CHUNK_SIZE - newOffset);
        newHash := st.WriteAndClaim(h, newOffset, buf[offsetInBuf..offsetInBuf + newSize]);
        newOffsetInBuf := offsetInBuf + newSize;
      } else {
        SpliceNothing(h.content, newOffset);
      }
    }

    /** The loop of writeInner over the slots of the written range.  It returns the range with
        the new hashes and the hashes it replaced. */
    static method WriteSlots(st: Storage, hashes: seq<Hash>, start: nat, buf: seq<Byte>)
      returns (out: seq<Hash>, removed: seq<Hash>)
      requires st.Valid() && multiset(hashes) <= st.view.refs
      requires start < CHUNK_SIZE && start + |buf| <= Span(|hashes|)
      modifies st, st.accounting.Repr, st.view.table.Keys
      ensures old(st.view.events) <= st.view.events
      ensures st.Valid() && (forall g :: g in st.view.table && g !in old(st.view.table) ==> fresh(g))
      ensures |out| == |hashes| && Replacing(old(st.view.refs), st.view.refs, hashes, out, removed)
      ensures removed == [] ==> out == hashes
      ensures Bytes(out) == Splice(Bytes(hashes), start, buf)
    {
      hide st.Valid, Replacing, SlotsDone, SlotWritten, Bytes;
      NothingReplaced(st.view.refs, hashes);
      NoSlotsDone(hashes, start, buf);
      out, removed := hashes, [];
      var offsetInBuf := 0;
      for i := 0 to |hashes|
        invariant old(st.view.events) <= st.view.events
        invariant st.Valid() && (forall g :: g in st.view.table && g !in old(st.view.table) ==> fresh(g))
        invariant Replacing(old(st.view.refs), st.view.refs, hashes, out, removed)
        invariant removed == [] ==> out == hashes
        invariant offsetInBuf == Consumed(start, |buf|, i)
        invariant SlotsDone(hashes, out, start, buf, i)
      {
        hide Consumed;
        ghost var refs, now := old(st.view.refs), st.view.refs;
        NextSlot(hashes, out, start, buf, i);
        ClaimedSlot(refs, now, hashes, out, removed, i);
        var newHash;
        newHash, offsetInBuf := WriteSlot(st, out[i], start, buf, i, offsetInBuf);
        SlotDone(hashes, out, if newHash.Some? then newHash.value else out[i], start, buf, i);
        if newHash.Some? {
          ReplaceSlot(refs, now, hashes, out, removed, i, newHash.value);
          removed := removed + [out[i]];
          out := out[i := newHash.value];
        } else {
          assert out[i := out[i]] == out && st.view.refs == now;
        }
      }
      AllSlotsDone(hashes, out, start, buf);
    }

    /** The part of writeInner that replaces the slots of the written range. */
    method Overwrite(st: Storage, firstHash: nat, numHashesInWrite: nat, start: nat, buf: seq<Byte>, ghost offset: nat)
      returns (ok: bool)
      requires offset == Span(firstHash) + start
      requires st.Valid() && multiset(hashList) <= st.view.refs
      requires firstHash + numHashesInWrite <= |hashList|
      requires start < CHUNK_SIZE && start + |buf| <= Span(numHashesInWrite)
      modifies this`hashList, st, st.accounting.Repr, st.view.table.Keys
      ensures ok ==> old(st.view.events) <= st.view.events
      ensures size == old(size)
      ensures ok ==> st.Valid() && Bytes(hashList) == Splice(old(Bytes(hashList)), offset, buf)
      ensures ok ==> Exchanged(old(st.view.refs), old(hashList), st.view.refs, hashList)
      ensures ok ==> forall g :: g in st.view.table && g !in old(st.view.table) ==> fresh(g)
      ensures !ok ==> |st.accounting.bucketsInUse| > MAX_BUCKETS
    {
      hide st.Valid, Replacing, Exchanged, Bytes, Splice;
      NotInFootprint(st);
      ghost var last := firstHash + numHashesInWrite;
      var hashes := hashList[firstHash..firstHash + numHashesInWrite];
      SliceClaims(hashList, firstHash, last);
      ghost var refs := st.view.refs;
      var out, removed := WriteSlots(st, hashes, start, buf);
      NotInFootprint(st);
      RangeReplaced(refs, st.view.refs, hashList, firstHash, last, hashes, out, removed, start, buf, offset);
      if removed != [] {
        hashList := Splice(hashList, firstHash, out);
        ok := st.Release(removed, false);
      } else {
        ok := true;
      }
    }

    /** The first part of writeInner: raise the size and lengthen the list to what the write
        asks for. */
    method Extend(st: Storage, newSize: nat, numHashes: nat)
      requires st.Valid() && multiset(hashList) <= st.view.refs
      modifies this, st, st.zeroHash
      ensures old(st.view.events) <= st.view.events
      ensures st.Valid() && st.view.table.Keys == old(st.view.table.Keys)
      ensures Flat() == FlatFile(newSize, PadTo(old(Bytes(hashList)), Span(numHashes)))
      ensures Exchanged(old(st.view.refs), old(hashList), st.view.refs, hashList)
      ensures multiset(hashList) <= st.view.refs
    {
      hide st.Valid, Exchanged, Bytes, PadTo, Missing;
      NotInFootprint(st);
      st.ZeroFacts();
      GrowBytes(hashList, st.zeroHash, numHashes);
      GrowExchanged(st.view.refs, hashList, Missing(hashList, st.zeroHash, numHashes));
      Grow(st, numHashes);
      NotInFootprint(st);
      size := newSize;
    }

    /** writeInner.  The precondition is the assertion on the list length; the result is
        false when the allocator aborts the process. */
    method Write(st: Storage, buf: seq<Byte>, offset: nat) returns (ok: bool)
      requires st.Valid() && multiset(hashList) <= st.view.refs
      requires !LengthAborts(Flat(), offset, |buf|)
      modifies this, st, st.accounting.Repr, st.view.table.Keys
      ensures ok ==> old(st.view.events) <= st.view.events
      ensures ok ==> st.Valid() && Flat() == Written(old(Flat()), offset, buf)
      ensures ok ==> Exchanged(old(st.view.refs), old(hashList), st.view.refs, hashList)
      ensures ok ==> forall g :: g in st.view.table && g !in old(st.view.table) ==> fresh(g)
      ensures !ok ==> |st.accounting.bucketsInUse| > MAX_BUCKETS
    {
      hide st.Valid, Exchanged, Bytes;
      st.ZeroFacts();
      ghost var f, list, refs := Flat(), hashList, st.view.refs;
      var newSize := Max(size, offset + |buf|);
      var numHashes := SlotsFor(newSize, offset);
      ghost var padded := PadTo(f.bytes, Span(numHashes));
      WriteFits(f, offset, |buf|, numHashes);
      WrittenBytes(f, offset, buf, newSize, numHashes, padded);
      hide Written, LengthAborts, SlotsFor, ChunksFor, Splice, PadTo;
      Extend(st, newSize, numHashes);
      NotInFootprint(st);
      ghost var list1, refs1 := hashList, st.view.refs;
      assert Bytes(list1) == padded;
      ok := Overwrite(st, ChunkIndex(offset), SlotsFor(|buf|, offset), ChunkOffset(offset), buf, offset);
      if ok {
        ExchangedTwice(refs, list, refs1, list1, st.view.refs, hashList);
      }
    }

    /** truncateInner. */
    method Truncate(st: Storage, newSize: nat) returns (ok: bool)
      requires st.Valid() && multiset(hashList) <= st.view.refs
      modifies this, st, st.accounting.Repr, st.view.table.Keys
      ensures ok ==> old(st.view.events) <= st.view.events
      ensures ok ==> st.Valid() && Flat() == Truncated(old(Flat()), newSize)
      ensures ok ==> Exchanged(old(st.view.refs), old(hashList), st.view.refs, hashList)
      ensures ok ==> st.view.table.Keys <= old(st.view.table.Keys)
      ensures !ok ==> |st.accounting.bucketsInUse| > MAX_BUCKETS
    {
      hide st.Valid, Exchanged, Bytes;
      st.ZeroFacts();
      var newNum := ChunksFor(newSize);
      if newNum < |hashList| {
        NotInFootprint(st);
        BytesTake(hashList, newNum);
        CutExchanged(st.view.refs, hashList, newNum);
        var toDelete := hashList[newNum..];
        hashList := hashList[..newNum];
        ok := st.Release(toDelete, true);
        size := newSize;
      } else {
        Extend(st, newSize, newNum);
        ok := true;
      }
      if ok {
        ExchangedClaims(old(st.view.refs), old(hashList), st.view.refs, hashList);
        NotInFootprint(st);
        RestHashes(st);
      }
    }

    /** The part of file::rest that puts the hashes to rest. */
    method RestHashes(st: Storage)
      requires st.Valid() && multiset(hashList) <= st.view.refs
      modifies st, st.view.table.Keys
      ensures old(st.view.events) <= st.view.events
      ensures st.Valid() && st.view.refs == old(st.view.refs) && st.view.table.Keys == old(st.view.table.Keys)
    {
      hide st.Valid;
      var hashes := hashList;
      for i := 0 to |hashes|
        invariant old(st.view.events) <= st.view.events
        invariant st.Valid() && st.view.refs == old(st.view.refs) && st.view.table.Keys == old(st.view.table.Keys)
      {
        assert hashes[i] in multiset(hashes);
        st.ClaimedFacts(hashes[i]);
        st.RestClaimed(hashes[i]);
      }
    }

    /** swapContent: the content becomes a new list of hashes, then the old list is released.
        The precondition is the assertion that no piece is the zero chunk. */
    method SwapContent(st: Storage, content: seq<Byte>) returns (ok: bool)
      requires st.Valid() && multiset(hashList) <= st.view.refs
      requires !SwapAborts(content)
      modifies this, st, st.accounting.Repr, st.view.table.Keys
      ensures ok ==> old(st.view.events) <= st.view.events
      ensures ok ==> st.Valid() && Flat() == Swapped(content)
      ensures ok ==> Exchanged(old(st.view.refs), old(hashList), st.view.refs, hashList)
      ensures ok ==> forall g :: g in st.view.table && g !in old(st.view.table) ==> fresh(g)
      ensures !ok ==> |st.accounting.bucketsInUse| > MAX_BUCKETS
    {
      hide st.Valid, Exchanged, Bytes;
      NotInFootprint(st);
      ghost var refs := st.view.refs;
      var newList := MakeList(st, content);
      SwapExchanged(refs, hashList, newList);
      var oldList := hashList;
      NotInFootprint(st);
      hashList := newList;
      size := |content|;
      ok := st.Release(oldList, false);
    }

    /** The loop of swapContent that turns the content into hashes with a reference each. */
    static method MakeList(st: Storage, content: seq<Byte>) returns (newList: seq<Hash>)
      requires st.Valid() && !SwapAborts(content)
      modifies st, st.accounting.Repr, st.view.table.Keys
      ensures old(st.view.events) <= st.view.events
      ensures |newList| == ChunksFor(|content|) && Bytes(newList) == PadTo(content, Span(|newList|))
      ensures st.Valid() && st.view.refs == old(st.view.refs) + multiset(newList)
      ensures forall g :: g in st.view.table && g !in old(st.view.table) ==> fresh(g)
    {
      hide st.Valid, Bytes;
      newList := [];
      EmptyList(content);
      var offset := 0;
      while offset < |content|
        invariant |newList| <= ChunksFor(|content|) && offset == Min(|content|, Span(|newList|))
        invariant old(st.view.events) <= st.view.events
        invariant st.Valid() && st.view.refs == old(st.view.refs) + multiset(newList)
        invariant forall g :: g in st.view.table && g !in old(st.view.table) ==> fresh(g)
        invariant Bytes(newList) == PadTo(content[..offset], Span(|newList|))
      {
        var newHash := WritePiece(st, content, newList);
        newList := newList + [newHash];
        offset := offset + Min(CHUNK_SIZE, |content| - offset);
      }
    }

    /** One round of that loop: the next piece of the content becomes a hash. */
    static method WritePiece(st: Storage, content: seq<Byte>, list: seq<Hash>) returns (newHash: Hash)
      requires |list| < ChunksFor(|content|) && !SwapAborts(content)
      requires Bytes(list) == PadTo(content[..Min(|content|, Span(|list|))], Span(|list|))
      requires st.Valid()
      modifies st, st.accounting.Repr, st.view.table.Keys
      ensures old(st.view.events) <= st.view.events
      ensures Bytes(list + [newHash]) == PadTo(content[..Min(|content|, Span(|list| + 1))], Span(|list| + 1))
      ensures st.Valid() && st.view.refs == old(st.view.refs) + multiset{newHash}
      ensures forall g :: g in st.view.table && g !in old(st.view.table) ==> fresh(g)
    {
      hide st.Valid, Bytes;
      SwapPiece(content, Bytes(list), |list|);
      st.ZeroFacts();
      var h := st.WriteAndClaim(st.zeroHash, 0, Piece(content, |list|));
      assert h.Some?;
      newHash := h.value;
      BytesPush(list, newHash);
    }

    /** read of a file whose list covers its size: the bytes from the offset on, as far as
        ReadLength says. */
    method Read(st: Storage, size: nat, offset: nat) returns (buf: seq<Byte>)
      requires st.Valid() && multiset(hashList) <= st.view.refs && Shape(Flat())
      modifies st, st.view.table.Keys
      ensures old(st.view.events) <= st.view.events
      ensures |buf| == ReadLength(old(Flat()), offset, size)
      ensures offset + |buf| <= |old(Flat()).bytes| || buf == []
      ensures buf != [] ==> buf == old(Flat()).bytes[offset..offset + |buf|]
      ensures st.Valid() && st.view.refs == old(st.view.refs) && st.view.table.Keys == old(st.view.table.Keys)
    {
      hide st.Valid, Bytes, Shape;
      if offset >= this.size {
        return [];
      }
      hide ReadLength, Consumed;
      ghost var f := Flat();
      var maxReadSize := Min(this.size - offset, size);
      var firstHash := ChunkIndex(offset);
      var numHashesInRead := ChunksFor(maxReadSize);
      ReadRange(f, offset, size, maxReadSize, numHashesInRead);
      ReadInList(f, hashList, offset, size, maxReadSize);
      hide ChunksFor, ChunkIndex, ChunkOffset;
      if firstHash + numHashesInRead > |hashList| {
        assert false;  // the clamp of the original never fires
      }
      buf := ReadHashes(st, firstHash, numHashesInRead, ChunkOffset(offset), maxReadSize);
    }

    /** The part of read that copies from the slots of the range. */
    method ReadHashes(st: Storage, first: nat, n: nat, start: nat, length: nat) returns (buf: seq<Byte>)
      requires first + n <= |hashList| && start < CHUNK_SIZE
      requires st.Valid() && multiset(hashList) <= st.view.refs
      modifies st, st.view.table.Keys
      ensures old(st.view.events) <= st.view.events
      ensures |buf| == Consumed(start, length, n)
      ensures buf != [] ==> Span(first) + start + |buf| <= |Bytes(old(hashList))|
      ensures buf != [] ==> buf == Bytes(old(hashList))[Span(first) + start..Span(first) + start + |buf|]
      ensures Flat() == old(Flat())
      ensures st.Valid() && st.view.refs == old(st.view.refs) && st.view.table.Keys == old(st.view.table.Keys)
    {
      hide st.Valid, Bytes, Consumed;
      ghost var list := hashList;
      var hashes := hashList[first..first + n];
      SliceClaims(hashList, first, first + n);
      buf := ReadSlots(st, hashes, start, length);
      if buf != [] {
        BytesInRange(list, first, n, start, |buf|);
      }
    }

    /** The loop of read over the slots of the range. */
    static method ReadSlots(st: Storage, hashes: seq<Hash>, start: nat, length: nat) returns (buf: seq<Byte>)
      requires st.Valid() && multiset(hashes) <= st.view.refs && start < CHUNK_SIZE
      modifies st, st.view.table.Keys
      ensures old(st.view.events) <= st.view.events
      ensures |buf| == Consumed(start, length, |hashes|) && start + |buf| <= Max(start, Span(|hashes|))
      ensures buf != [] ==> buf == Bytes(hashes)[start..start + |buf|]
      ensures st.Valid() && st.view.refs == old(st.view.refs) && st.view.table.Keys == old(st.view.table.Keys)
    {
      hide st.Valid, Bytes, Consumed;
      buf := [];
      NothingConsumed(start, length);
      for i := 0 to |hashes|
        invariant old(st.view.events) <= st.view.events
        invariant st.Valid() && st.view.refs == old(st.view.refs) && st.view.table.Keys == old(st.view.table.Keys)
        invariant |buf| == Consumed(start, length, i) && start + |buf| <= Max(start, Span(i))
        invariant buf != [] ==> buf == Bytes(hashes)[start..start + |buf|]
      {
        buf := ReadSlot(st, hashes, i, start, length, buf);
      }
    }

    /** One round of that loop: the part of the range in slot i follows what was read before. */
    static method ReadSlot(st: Storage, hashes: seq<Hash>, i: nat, start: nat, length: nat, before: seq<Byte>)
      returns (buf: seq<Byte>)
      requires start < CHUNK_SIZE && i < |hashes|
      requires |before| == Consumed(start, length, i) && start + |before| <= Max(start, Span(i))
      requires before != [] ==> before == Bytes(hashes)[start..start + |before|]
      requires st.Valid() && multiset(hashes) <= st.view.refs
      modifies st, st.view.table.Keys
      ensures old(st.view.events) <= st.view.events
      ensures |buf| == Consumed(start, length, i + 1) && start + |buf| <= Max(start, Span(i + 1))
      ensures buf != [] ==> buf == Bytes(hashes)[start..start + |buf|]
      ensures st.Valid() && st.view.refs == old(st.view.refs) && st.view.table.Keys == old(st.view.table.Keys)
    {
      hide st.Valid, Bytes;
      ConsumedStep(start, length, i);
      hide Consumed;
      buf := before;
      var size := length - |buf|;
      if size > 0 {
        var newOffset := Max(start - Span(i), 0);
        var newSize := Min(size, CHUNK_SIZE - newOffset);
        assert hashes[i] in multiset(hashes);
        st.ClaimedFacts(hashes[i]);
        var part := st.ReadHash(hashes[i], newOffset, newSize);
        BytesOfSlot(hashes, i, newOffset, newOffset + newSize);
        JoinSlices(Bytes(hashes), start, |buf|, |buf| + newSize, buf, part);
        buf := buf + part;
      }
    }
  }

  lemma NothingConsumed(start: nat, length: nat)
    ensures Consumed(start, length, 0) == 0
  {
  }

}
