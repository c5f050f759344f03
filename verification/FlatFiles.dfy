/** The reference model of a file: a size and one flat array of bytes, which ends on a chunk
    boundary.  What write, truncate, swapContent and read of
    src/modules/filesystem/file.cpp mean, without chunks, hashes or sharing. */
module FlatFiles {
  import opened Chunks

  datatype FlatFile = FlatFile(size: nat, bytes: seq<Byte>)

  const EMPTY: FlatFile := FlatFile(0, [])

  function PadTo(bytes: seq<Byte>, n: nat): (r: seq<Byte>)
    ensures |r| == if |bytes| < n then n else |bytes|
    ensures bytes <= r && forall i :: |bytes| <= i < |r| ==> r[i] == 0
  {
    if |bytes| < n then bytes + Zeros(n - |bytes|) else bytes
  }

  /** The list length a write asks for: an unaligned offset counts one slot more. */
  function SlotsFor(size: nat, offset: nat): nat {
    ChunksFor(size) + if ChunkOffset(offset) > 0 then 1 else 0
  }

  function SizeAfter(f: FlatFile, offset: nat, length: nat): (n: nat)
    ensures n >= f.size && n >= offset + length
  {
    Max(f.size, offset + length)
  }

  /** The list is longer than the write asks for, so that the assertion
      `hashList.getSize()<numHashes` aborts the process. */
  predicate LengthAborts(f: FlatFile, offset: nat, length: nat) {
    |f.bytes| > Span(SlotsFor(SizeAfter(f, offset, length), offset))
  }

  function Written(f: FlatFile, offset: nat, buf: seq<Byte>): (r: FlatFile)
    requires !LengthAborts(f, offset, |buf|)
  {
    var size := SizeAfter(f, offset, |buf|);
    FlatFile(size, Splice(PadTo(f.bytes, Span(SlotsFor(size, offset))), offset, buf))
  }

  function Truncated(f: FlatFile, size: nat): (r: FlatFile) {
    var n := Span(ChunksFor(size));
    FlatFile(size, if n < |f.bytes| then f.bytes[..n] else PadTo(f.bytes, n))
  }

  function Swapped(content: seq<Byte>): (r: FlatFile) {
    FlatFile(|content|, PadTo(content, Span(ChunksFor(|content|))))
  }

  /** A 4096-byte piece of the content is all zeros, so that the assertion in swapContent
      that its chunk is new aborts the process. */
  ghost predicate SwapAborts(content: seq<Byte>) {
    exists k :: 0 <= k < ChunksFor(|content|) && PadTo(Piece(content, k), CHUNK_SIZE) == ZERO_CHUNK
  }

  function Piece(content: seq<Byte>, k: nat): (r: seq<Byte>)
    requires k < ChunksFor(|content|)
    ensures |r| == Min(CHUNK_SIZE, |content| - Span(k)) && 0 < |r|
  {
    content[Span(k)..Span(k) + Min(CHUNK_SIZE, |content| - Span(k))]
  }

  /** The number of bytes a read returns: the chunk an unaligned range ends in is not
      counted, so the read may stop short of it. */
  function ReadLength(f: FlatFile, offset: nat, size: nat): nat {
    if offset >= f.size then 0
    else
      var m := Min(f.size - offset, size);
      if m == 0 then 0 else Min(m, Span(ChunksFor(m)) - ChunkOffset(offset))
  }

  /** The list covers the size, with at most one slot more, and that slot is zero. */
  ghost predicate Shape(f: FlatFile) {
    var n := Span(ChunksFor(f.size));
    && n <= |f.bytes| <= n + CHUNK_SIZE
    && ChunkOffset(|f.bytes|) == 0
    && forall i :: n <= i < |f.bytes| ==> f.bytes[i] == 0
  }

  // ---------- what every operation keeps ----------

  lemma WriteKeepsShape(f: FlatFile, offset: nat, buf: seq<Byte>)
    requires Shape(f) && !LengthAborts(f, offset, |buf|)
    ensures Shape(Written(f, offset, buf))
  {
    ChunksForMonotone(f.size, SizeAfter(f, offset, |buf|));
  }

  lemma ChunksForMonotone(m: nat, n: nat)
    requires m <= n
    ensures ChunksFor(m) <= ChunksFor(n)
  {
  }

  lemma TruncateKeepsShape(f: FlatFile, size: nat)
    requires Shape(f)
    ensures Shape(Truncated(f, size))
  {
  }

  lemma SwapHasShape(content: seq<Byte>)
    ensures Shape(Swapped(content))
  {
  }

  // ---------- what a caller sees ----------

  /** The length assertion aborts exactly the aligned writes that stay within the chunks of
      a file whose list still has the slot an earlier unaligned write added. */
  lemma AbortsExactly(f: FlatFile, offset: nat, length: nat)
    requires Shape(f)
    ensures LengthAborts(f, offset, length) <==>
              && ChunkOffset(offset) == 0
              && |f.bytes| > Span(ChunksFor(f.size))
              && offset + length <= Span(ChunksFor(f.size))
  {
    ChunksForMonotone(f.size, SizeAfter(f, offset, length));
    if offset + length > Span(ChunksFor(f.size)) {
      assert ChunksFor(offset + length) > ChunksFor(f.size);
    }
  }

  /** A run that aborts: one byte written at offset 1 of an empty file and then one at 0. */
  lemma UnalignedThenAlignedAborts(b: Byte)
    ensures !LengthAborts(EMPTY, 1, 1)
    ensures LengthAborts(Written(EMPTY, 1, [b]), 0, 1)
  {
    assert ChunksFor(2) == 1 && ChunkOffset(1) == 1;
  }

  /** The size after a write is the end of what was written, if that is beyond the old size; the
      list gets a slot for every 4096 bytes begun, and one more for an unaligned offset. */
  lemma WrittenSize(f: FlatFile, offset: nat, buf: seq<Byte>)
    requires !LengthAborts(f, offset, |buf|)
    ensures var g := Written(f, offset, buf);
            && g.size == (if offset + |buf| > f.size then offset + |buf| else f.size)
            && |g.bytes| == 4096 * ((g.size + 4095) / 4096 + if offset % 4096 == 0 then 0 else 1)
  {
  }

  /** A write changes its range and nothing else, and the list grows by zeros. */
  lemma WriteChangesItsRange(f: FlatFile, offset: nat, buf: seq<Byte>, i: nat)
    requires !LengthAborts(f, offset, |buf|) && i < |Written(f, offset, buf).bytes|
    ensures Written(f, offset, buf).bytes[i] ==
            if offset <= i < offset + |buf| then buf[i - offset]
            else if i < |f.bytes| then f.bytes[i] else 0
  {
  }

  /** A truncate sets the size and the number of slots, keeps every byte below both lengths, and
      fills the rest with zeros. */
  lemma TruncateKeepsBytes(f: FlatFile, size: nat, i: nat)
    ensures var g := Truncated(f, size);
            && g.size == size && |g.bytes| == 4096 * ((size + 4095) / 4096)
            && (i < |g.bytes| ==> g.bytes[i] == if i < |f.bytes| then f.bytes[i] else 0)
  {
  }

  /** A swap leaves the content, with zeros behind it up to a whole chunk. */
  lemma SwapLeavesContent(content: seq<Byte>, i: nat)
    ensures var g := Swapped(content);
            && g.size == |content| && |g.bytes| == 4096 * ((|content| + 4095) / 4096)
            && content <= g.bytes && g.bytes[..|content|] == content
            && (|content| <= i < |g.bytes| ==> g.bytes[i] == 0)
  {
  }

  /** swapContent meets its assertion exactly when the content has a piece of 4096 bytes, or what
      is left of it at the end, that is all zeros. */
  lemma SwapAbortsExactly(content: seq<Byte>)
    ensures SwapAborts(content) <==>
            exists k: nat :: 4096 * k < |content| && ZeroRange(content, 4096 * k, Min(4096 * k + 4096, |content|))
  {
    forall k: nat | k < ChunksFor(|content|)
      ensures PadTo(Piece(content, k), CHUNK_SIZE) == ZERO_CHUNK
              <==> ZeroRange(content, 4096 * k, Min(4096 * k + 4096, |content|))
    {
      PieceIsZero(content, k);
    }
    if SwapAborts(content) {
      var k :| 0 <= k < ChunksFor(|content|) && PadTo(Piece(content, k), CHUNK_SIZE) == ZERO_CHUNK;
      assert 4096 * k < |content|;
    }
    if k: nat :| 4096 * k < |content| && ZeroRange(content, 4096 * k, Min(4096 * k + 4096, |content|)) {
      assert k < ChunksFor(|content|) && PadTo(Piece(content, k), CHUNK_SIZE) == ZERO_CHUNK;
    }
  }

  ghost predicate ZeroRange(s: seq<Byte>, from: nat, to: nat)
    requires from <= to <= |s|
  {
    forall i :: from <= i < to ==> s[i] == 0
  }

  lemma PieceIsZero(content: seq<Byte>, k: nat)
    requires k < ChunksFor(|content|)
    ensures PadTo(Piece(content, k), CHUNK_SIZE) == ZERO_CHUNK
            <==> ZeroRange(content, 4096 * k, Min(4096 * k + 4096, |content|))
  {
    var piece := Piece(content, k);
    var padded := PadTo(piece, CHUNK_SIZE);
    if padded == ZERO_CHUNK {
      forall i | 4096 * k <= i < Min(4096 * k + 4096, |content|) ensures content[i] == 0 {
        assert content[i] == piece[i - 4096 * k] == padded[i - 4096 * k];
      }
    }
    if ZeroRange(content, 4096 * k, Min(4096 * k + 4096, |content|)) {
      assert forall j :: 0 <= j < |piece| ==> piece[j] == content[4096 * k + j];
      assert padded == ZERO_CHUNK;
    }
  }

  /** The clamp in read never fires: the slots a read asks for exist. */
  lemma ReadStaysInList(f: FlatFile, offset: nat, size: nat)
    requires Shape(f) && offset < f.size
    ensures ChunkIndex(offset) + ChunksFor(Min(f.size - offset, size)) <= ChunkIndex(|f.bytes|)
    ensures offset + ReadLength(f, offset, size) <= Min(f.size, offset + size)
    ensures f.size <= |f.bytes|
  {
    var m := Min(f.size - offset, size);
    ChunksForMonotone(offset + m, f.size);
    assert ChunkIndex(offset) + ChunksFor(m) <= ChunksFor(offset + m);
  }

  /** A read returns everything asked for when its offset is aligned or its range does not
      reach one chunk further than its length counts, and only then. */
  lemma ReadIsComplete(f: FlatFile, offset: nat, size: nat)
    requires offset < f.size
    ensures var m := Min(f.size - offset, size);
            ReadLength(f, offset, size) == m <==>
            ChunkOffset(offset) == 0 || m == 0 || ChunksFor(ChunkOffset(offset) + m) == ChunksFor(m)
  {
    var m := Min(f.size - offset, size);
    var r := ChunkOffset(offset);
    if m > 0 {
      ChunksForMonotone(m, r + m);
    }
  }

  /** How far a read gets: to the end of what was asked for, or else to the end of a chunk, the
      one that is as many chunks on as its length counts, less than a chunk before that. */
  lemma ReadStopsAt(f: FlatFile, offset: nat, size: nat)
    requires offset < f.size
    ensures var m, n := Min(f.size - offset, size), ReadLength(f, offset, size);
            && n <= m
            && (n < m ==> (offset + n) % 4096 == 0 && m - n < 4096 &&
                          (offset + n) / 4096 == offset / 4096 + (m + 4095) / 4096)
            && (n == m > 0 ==> offset + m <= 4096 * (offset / 4096 + (m + 4095) / 4096))
  {
  }

  /** Nothing is read from the end of the file on. */
  lemma NothingBehindEnd(f: FlatFile, offset: nat, size: nat)
    requires offset >= f.size
    ensures ReadLength(f, offset, size) == 0
  {
  }

  /** Reading the whole file right after its content was swapped returns the content. */
  lemma ReadAfterSwap(content: seq<Byte>)
    ensures ReadLength(Swapped(content), 0, |content|) == |content| <= |Swapped(content).bytes|
    ensures Swapped(content).bytes[0..|content|] == content
  {
  }

  /** A short read: a chunk's length from offset 1 on stops a byte early, long before the end. */
  lemma ShortRead(f: FlatFile)
    requires f.size == 5000
    ensures ReadLength(f, 1, 4096) == 4095 < Min(f.size - 1, 4096)
  {
    assert ChunkOffset(1) == 1 && ChunksFor(4096) == 1;
  }

  /** What was written is what an aligned read of the range returns. */
  lemma ReadAfterWrite(f: FlatFile, offset: nat, buf: seq<Byte>)
    requires Shape(f) && !LengthAborts(f, offset, |buf|) && ChunkOffset(offset) == 0 && |buf| > 0
    ensures var g := Written(f, offset, buf);
            && ReadLength(g, offset, |buf|) == |buf|
            && offset + |buf| <= |g.bytes|
            && g.bytes[offset..offset + |buf|] == buf
  {
  }

  /** Shrinking keeps the bytes after the new end in the last chunk.  Growing again shows
      zeros there exactly when they were zero before. */
  lemma RegrowExposesTail(f: FlatFile, small: nat, large: nat, i: nat)
    requires Shape(f) && small <= i < large && small <= f.size
    ensures i < |Truncated(Truncated(f, small), large).bytes|
    ensures Truncated(Truncated(f, small), large).bytes[i] ==
            if i < Span(ChunksFor(small)) then f.bytes[i] else 0
  {
    ChunksForMonotone(small, large);
    ChunksForMonotone(small, f.size);
  }

}
