/** Chunks of 4096 bytes (src/modules/filesystem/chunk.h) and the byte strings they make up. */
module Chunks {

  const CHUNK_SIZE: nat := 4096

  type Byte = x: int | 0 <= x < 256

  function Zeros(n: nat): (z: seq<Byte>)
    ensures |z| == n && forall i :: 0 <= i < n ==> z[i] == 0
  {
    seq(n, _ => 0)
  }

  type Chunk = s: seq<Byte> | |s| == CHUNK_SIZE witness Zeros(CHUNK_SIZE)

  /** A new chunk is zeroed. */
  const ZERO_CHUNK: Chunk := Zeros(CHUNK_SIZE)

  /** `s` with the bytes from `start` on replaced by `buf`: what chunk::write returns. */
  function Splice<T>(s: seq<T>, start: nat, buf: seq<T>): (r: seq<T>)
    requires start + |buf| <= |s|
    ensures |r| == |s|
  {
    s[..start] + buf + s[start + |buf|..]
  }

  /** The number of bytes in k chunks. */
  function Span(k: int): (n: int)
    ensures k >= 0 ==> n >= 0
  {
    k * 4096
  }

  /** The chunk a byte offset falls in, and where in that chunk. */
  function ChunkIndex(offset: nat): nat {
    offset / 4096
  }

  function ChunkOffset(offset: nat): (r: nat)
    ensures r < CHUNK_SIZE
  {
    offset % 4096
  }

  /** The number of chunks that n bytes take. */
  function ChunksFor(n: nat): (k: nat)
    ensures n <= Span(k) < n + CHUNK_SIZE
  {
    ChunkIndex(n) + if ChunkOffset(n) > 0 then 1 else 0
  }

  lemma SpanIndex(k: nat, offset: nat)
    ensures ChunkIndex(Span(k)) == k && ChunkOffset(Span(k)) == 0
    ensures offset == Span(ChunkIndex(offset)) + ChunkOffset(offset)
  {
  }

  function Min(a: int, b: int): int {
    if a < b then a else b
  }

  function Max(a: int, b: int): int {
    if a < b then b else a
  }

  lemma TakeTwice<T>(s: seq<T>, n: nat, m: nat)
    requires m <= n <= |s|
    ensures s[..n][..m] == s[..m] && s[..n][m..] == s[m..n]
  {
  }

  lemma SubSlice<T>(s: seq<T>, from: nat, to: nat, start: nat, k: nat)
    requires from <= to <= |s| && start + k <= to - from
    ensures s[from..to][start..start + k] == s[from + start..from + start + k]
  {
    var l, r := s[from..to][start..start + k], s[from + start..from + start + k];
    forall i | 0 <= i < k ensures l[i] == r[i] {
      assert s[from..to][start + i] == s[from + start + i];
    }
  }

  /** Splicing into a prefix and then into what follows it. */
  lemma SpliceSplit(a: seq<Byte>, b: seq<Byte>, start: nat, buf: seq<Byte>)
    requires start <= |a| + |b| && start + |buf| <= |a| + |b|
    ensures start + |buf| <= |a| ==> Splice(a + b, start, buf) == Splice(a, start, buf) + b
    ensures start >= |a| ==> Splice(a + b, start, buf) == a + Splice(b, start - |a|, buf)
    ensures start <= |a| < start + |buf| ==>
              Splice(a + b, start, buf) == Splice(a, start, buf[..|a| - start]) + Splice(b, 0, buf[|a| - start..])
  {
  }

}
