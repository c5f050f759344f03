/** The bucket: 256 chunks and their hash records, cached over two encrypted files
    (src/modules/filesystem/bucket.cpp). */
module Buckets {
  import opened Wrappers
  import opened Chunks
  import opened Flattening
  import opened JournalRecords

  const SLOTS: nat := 256
  const RECORD_SIZE: nat := 48
  const DIGEST_SIZE: nat := 32

  /** encrypt and decrypt under the bucket's key, and the digest written for an empty slot. */
  datatype Protocol = Protocol(encrypt: seq<Byte> -> seq<Byte>, decrypt: seq<Byte> -> seq<Byte>, emptyHsh: seq<Byte>)

  ghost predicate Decrypts(p: Protocol) {
    && (forall m :: p.decrypt(p.encrypt(m)) == m && p.encrypt(m) != [])
    && |p.emptyHsh| == DIGEST_SIZE
  }

  // ---------- hash records ----------

  datatype HashRecord = HashRecord(bucket: nat, refcnt: nat, digest: seq<Byte>)

  type Slot = Option<HashRecord>

  /** The fields fit a serializedHash: an index of 64 bits and a signed count of 64. */
  predicate SlotFits(s: Slot) {
    s.Some? ==> s.value.bucket < Range(8) && s.value.refcnt < Range(8) / 2 && |s.value.digest| == DIGEST_SIZE
  }

  const FIELDS: seq<nat> := [8, 8]

  function SlotBytes(p: Protocol, s: Slot): (bytes: seq<Byte>)
    requires |p.emptyHsh| == DIGEST_SIZE && SlotFits(s)
    ensures |bytes| == RECORD_SIZE
  {
    FieldsSize();
    match s
    case Some(h) => Pack([h.bucket, h.refcnt], FIELDS) + h.digest
    case None => Pack([0, 0], FIELDS) + p.emptyHsh
  }

  lemma FieldsSize()
    ensures Total(FIELDS) == 16
  {
    assert FIELDS[1..] == [8] && Total([8]) == 8;
  }

  /** A record with no references counts as an empty slot. */
  function ReadSlot(bytes: seq<Byte>): (s: Slot)
    requires |bytes| == RECORD_SIZE
  {
    FieldsSize();
    var v := Unpack(bytes, FIELDS);
    if v[1] > 0 then Some(HashRecord(v[0], v[1], bytes[16..])) else None
  }

  function Kept(s: Slot): Slot {
    if s.Some? && s.value.refcnt > 0 then s else None
  }

  lemma SlotRoundTrip(p: Protocol, s: Slot)
    requires |p.emptyHsh| == DIGEST_SIZE && SlotFits(s)
    ensures ReadSlot(SlotBytes(p, s)) == Kept(s)
  {
    FieldsSize();
    Ranges();
    hide Range, Pack, Unpack, Total;
    var values := if s.Some? then [s.value.bucket, s.value.refcnt] else [0, 0];
    var digest := if s.Some? then s.value.digest else p.emptyHsh;
    assert SlotBytes(p, s) == Pack(values, FIELDS) + digest;
    PackRoundTrip(values, FIELDS, digest);
    assert SlotBytes(p, s)[16..] == digest;
  }

  /** The 48 bytes of a record: index and count from the low byte up, then the digest. An empty slot
      has neither, and the protocol's empty digest. */
  lemma SlotLayout(p: Protocol, digest: seq<Byte>)
    requires |p.emptyHsh| == DIGEST_SIZE == |digest|
    ensures SlotFits(Some(HashRecord(0x0302, 0x0504, digest)))
    ensures SlotBytes(p, Some(HashRecord(0x0302, 0x0504, digest))) ==
              [2, 3, 0, 0, 0, 0, 0, 0, 4, 5, 0, 0, 0, 0, 0, 0] + digest
    ensures SlotBytes(p, None) == [0, 0, 0, 0, 0, 0, 0, 0, 0, 0, 0, 0, 0, 0, 0, 0] + p.emptyHsh
  {
    hide LittleEndian, Pack, Range, Total;
    Ranges();
    FieldsSize();
    SmallNumber(2, 3);
    SmallNumber(4, 5);
    SmallNumber(0, 0);
    PackTwo(0x0302, 0x0504);
    PackTwo(0, 0);
    var a: seq<Byte>, b: seq<Byte>, none: seq<Byte> :=
      [2, 3, 0, 0, 0, 0, 0, 0], [4, 5, 0, 0, 0, 0, 0, 0], [0, 0, 0, 0, 0, 0, 0, 0];
    assert LittleEndian(0x0302, 8) == a && LittleEndian(0x0504, 8) == b && LittleEndian(0, 8) == none;
    assert a + b == [2, 3, 0, 0, 0, 0, 0, 0, 4, 5, 0, 0, 0, 0, 0, 0];
    assert none + none == [0, 0, 0, 0, 0, 0, 0, 0, 0, 0, 0, 0, 0, 0, 0, 0];
  }

  lemma PackTwo(a: nat, b: nat)
    ensures Pack([a, b], FIELDS) == LittleEndian(a, 8) + LittleEndian(b, 8)
  {
    assert [a, b][1..] == [b] && FIELDS[1..] == [8] && [b][1..] == [] && [8][1..] == [];
  }

  function KeptAll(slots: seq<Slot>): (r: seq<Slot>)
    ensures |r| == |slots| && forall k :: 0 <= k < |slots| ==> r[k] == Kept(slots[k])
  {
    seq(|slots|, k requires 0 <= k < |slots| => Kept(slots[k]))
  }

  lemma KeptTwice(slots: seq<Slot>)
    ensures KeptAll(KeptAll(slots)) == KeptAll(slots)
  {
  }

  ghost predicate AnyHash(slots: seq<Slot>) {
    exists k :: 0 <= k < |slots| && slots[k].Some?
  }

  // ---------- the two files ----------

  function RecordBytes(p: Protocol, slots: seq<Slot>): (r: seq<seq<Byte>>)
    requires |p.emptyHsh| == DIGEST_SIZE && forall k :: 0 <= k < |slots| ==> SlotFits(slots[k])
    ensures |r| == |slots| && forall k :: 0 <= k < |slots| ==> r[k] == SlotBytes(p, slots[k])
  {
    seq(|slots|, k requires 0 <= k < |slots| => SlotBytes(p, slots[k]))
  }

  /** What the files hold. */
  datatype Image = Image(chunks: seq<Chunk>, slots: seq<Slot>)

  ghost predicate ImageOk(image: Image) {
    && |image.chunks| == SLOTS && |image.slots| == SLOTS
    && forall k :: 0 <= k < SLOTS ==> SlotFits(image.slots[k])
  }

  /** An empty file name or content stands for a file that does not exist. */
  ghost predicate FilesHold(p: Protocol, chnk: seq<Byte>, hsh: seq<Byte>, image: Image)
    requires |p.emptyHsh| == DIGEST_SIZE && ImageOk(image)
  {
    && (if chnk == [] then image.chunks == seq(SLOTS, _ => ZERO_CHUNK) else chnk == p.encrypt(Flat(image.chunks)))
    && (if hsh == [] then image.slots == seq(SLOTS, _ => None) else hsh == p.encrypt(Flat(RecordBytes(p, image.slots))))
  }

  class BucketFiles {
    var chnk: seq<Byte>
    var hsh: seq<Byte>

    constructor ()
      ensures chnk == [] && hsh == []
    {
      chnk, hsh := [], [];
    }
  }

  lemma {:induction false} StartUniform<T>(blocks: seq<seq<T>>, size: nat, p: nat)
    requires forall i :: 0 <= i < |blocks| ==> |blocks[i]| == size
    requires p <= |blocks|
    ensures Start(blocks, p) == size * p
  {
    if p > 0 {
      StartUniform(blocks, size, p - 1);
      StartNext(blocks, p - 1);
      assert size * p == size * (p - 1) + size;
    }
  }

  lemma BlockAt<T>(blocks: seq<seq<T>>, size: nat, p: nat)
    requires forall i :: 0 <= i < |blocks| ==> |blocks[i]| == size
    requires p < |blocks|
    ensures size * p + size <= |Flat(blocks)| && Flat(blocks)[size * p..size * p + size] == blocks[p]
  {
    StartUniform(blocks, size, p);
    FlatSlice(blocks, p);
  }

  /** The loop of loadHashes over the decrypted file. */
  method ParseSlots(ghost p: Protocol, cleartext: seq<Byte>, ghost slots: seq<Slot>) returns (H: array<Slot>)
    requires |slots| == SLOTS && |p.emptyHsh| == DIGEST_SIZE && forall k :: 0 <= k < SLOTS ==> SlotFits(slots[k])
    requires cleartext == Flat(RecordBytes(p, slots))
    ensures fresh(H) && H[..] == KeptAll(slots)
  {
    hide Flat, ReadSlot, SlotBytes, SlotFits, Kept;
    ghost var records := RecordBytes(p, slots);
    H := new Slot[SLOTS](_ => None);
    for k := 0 to SLOTS
      invariant forall i :: 0 <= i < k ==> H[i] == Kept(slots[i])
    {
      BlockAt(records, RECORD_SIZE, k);
      SlotRoundTrip(p, slots[k]);
      H[k] := ReadSlot(cleartext[RECORD_SIZE * k..RECORD_SIZE * k + RECORD_SIZE]);
    }
  }

  /** The loop of loadChunks over the decrypted file. */
  method ParseChunks(cleartext: seq<Byte>, ghost image: seq<Chunk>) returns (C: array<Chunk>)
    requires |image| == SLOTS && cleartext == Flat(image)
    ensures fresh(C) && C[..] == image
  {
    hide Flat;
    C := new Chunk[SLOTS](_ => ZERO_CHUNK);
    for k := 0 to SLOTS
      invariant forall i :: 0 <= i < k ==> C[i] == image[i]
    {
      BlockAt(image, CHUNK_SIZE, k);
      C[k] := cleartext[CHUNK_SIZE * k..CHUNK_SIZE * k + CHUNK_SIZE];
    }
  }

  /** The loop of store over the chunks. */
  method FormatChunks(C: array<Chunk>) returns (cleartext: seq<Byte>)
    requires C.Length == SLOTS
    ensures cleartext == Flat(C[..])
  {
    hide Flat;
    ghost var chunks := C[..];
    cleartext := [];
    FlatNone(chunks);
    for k := 0 to SLOTS
      invariant cleartext == Flat(chunks[..k])
    {
      assert chunks[..k + 1] == chunks[..k] + [chunks[k]];
      FlatPush(chunks[..k], chunks[k]);
      cleartext := cleartext + C[k];
    }
  }

  /** The loop of store over the hash records; num counts the slots that hold one. */
  method FormatSlots(p: Protocol, H: array<Slot>) returns (cleartext: seq<Byte>, num: nat)
    requires H.Length == SLOTS && |p.emptyHsh| == DIGEST_SIZE && forall k :: 0 <= k < SLOTS ==> SlotFits(H[k])
    ensures cleartext == Flat(RecordBytes(p, H[..]))
    ensures num > 0 <==> AnyHash(H[..])
  {
    hide Flat, SlotBytes, SlotFits;
    ghost var records := RecordBytes(p, H[..]);
    cleartext, num := [], 0;
    FlatNone(records);
    for k := 0 to SLOTS
      invariant cleartext == Flat(records[..k])
      invariant num > 0 <==> exists i :: 0 <= i < k && H[i].Some?
    {
      assert records[..k + 1] == records[..k] + [records[k]];
      FlatPush(records[..k], records[k]);
      if H[k].Some? {
        num := num + 1;
      }
      cleartext := cleartext + SlotBytes(p, H[k]);
    }
  }

  lemma {:induction false} FlatZeros(chunks: seq<Chunk>, n: nat)
    requires n <= |chunks| && forall k :: 0 <= k < n ==> chunks[k] == ZERO_CHUNK
    ensures Flat(chunks[..n]) == Zeros(CHUNK_SIZE * n)
    ensures n == |chunks| ==> Flat(chunks) == Zeros(CHUNK_SIZE * n)
  {
    if n > 0 {
      FlatZeros(chunks, n - 1);
      assert chunks[..n] == chunks[..n - 1] + [chunks[n - 1]];
      FlatPush(chunks[..n - 1], chunks[n - 1]);
    }
    assert n == |chunks| ==> chunks[..n] == chunks;
  }

  lemma FlatNone<T>(blocks: seq<seq<T>>)
    ensures Flat(blocks[..0]) == [] && blocks[..|blocks|] == blocks
  {
  }

  // ---------- what the bucket promises ----------

  /** A slot that holds a hash shows the chunk last put there. */
  ghost predicate Agree(held: seq<Slot>, last: seq<Chunk>, shown: seq<Chunk>) {
    && |held| == |last| == |shown|
    && forall k :: 0 <= k < |held| && held[k].Some? ==> shown[k] == last[k]
  }

  /** The files hold everything. */
  ghost predicate Saved(held: seq<Slot>, last: seq<Chunk>, image: Image) {
    KeptAll(image.slots) == KeptAll(held) && Agree(KeptAll(held), last, image.chunks)
  }

  class Bucket {
    const protocol: Protocol
    const files: BucketFiles
    var chunks: array?<Chunk>
    var hashes: array?<Slot>
    var chunkChanges: nat
    var hashChanges: nat
    var changes: seq<nat>         // journal entries waiting for the next store
    ghost var image: Image        // what is on disk
    ghost var held: seq<Slot>     // the hash records put last
    ghost var last: seq<Chunk>    // the chunks put last

    ghost predicate Valid()
      reads this, files, chunks, hashes
    {
      Consistent() && |held| == SLOTS == |last| && (chunks == null ==> chunkChanges == 0)
    }

    ghost predicate Consistent()
      reads this, files, chunks, hashes
    {
      && Decrypts(protocol) && ImageOk(image) && FilesHold(protocol, files.chnk, files.hsh, image)
      && |held| == SLOTS && |last| == SLOTS && (forall k :: 0 <= k < SLOTS ==> SlotFits(held[k]))
      && (chunks != null ==> chunks.Length == SLOTS) && (hashes != null ==> hashes.Length == SLOTS)
      && (if hashes != null then hashes[..] == held else held == KeptAll(image.slots))
      && Agree(held, last, if chunks != null then chunks[..] else image.chunks)
      && (hashes == null || Clean() ==> !AnyHash(held) || Saved(held, last, image))
      && |changes| <= 1024
    }

    /** Nothing counts as changed since the last load or store. */
    predicate Clean()
      reads this
    {
      hashChanges == 0 && chunkChanges == 0
    }

    /** A bucket opened on existing files. */
    constructor (protocol: Protocol, files: BucketFiles, ghost image: Image)
      requires Decrypts(protocol) && ImageOk(image) && FilesHold(protocol, files.chnk, files.hsh, image)
      ensures Valid() && this.files == files && this.protocol == protocol && this.image == image
      ensures chunks == null && hashes == null && held == KeptAll(image.slots) && last == image.chunks
      ensures chunkChanges == 0 && hashChanges == 0 && changes == []
    {
      hide FilesHold, Decrypts;
      this.protocol, this.files := protocol, files;
      chunks, hashes, chunkChanges, hashChanges, changes := null, null, 0, 0, [];
      this.image, held, last := image, KeptAll(image.slots), image.chunks;
      KeptTwice(image.slots);
    }

    /** loadHashes: the records of the file, or empty slots when there is none. */
    method LoadHashes()
      requires Valid() && hashes == null
      modifies this
      ensures Valid() && hashes != null && fresh(hashes)
      ensures chunks == old(chunks) && chunkChanges == old(chunkChanges) && changes == old(changes)
      ensures held == old(held) && last == old(last) && image == old(image)
    {
      hide Flat;
      var H: array<Slot>;
      if files.hsh != [] {
        var cleartext := protocol.decrypt(files.hsh);
        H := ParseSlots(protocol, cleartext, image.slots);
      } else {
        H := new Slot[SLOTS](_ => None);
      }
      assert H[..] == KeptAll(image.slots);
      KeptTwice(image.slots);
      hashChanges := 0;
      hashes := H;
    }

    /** loadChunks: the chunks of the file, or zeroed chunks when there is none. */
    method LoadChunks()
      requires Valid() && chunks == null
      modifies this
      ensures Valid() && chunks != null && fresh(chunks) && chunkChanges == 0
      ensures hashes == old(hashes) && hashChanges == old(hashChanges) && changes == old(changes)
      ensures held == old(held) && last == old(last) && image == old(image)
    {
      hide Flat;
      var C: array<Chunk>;
      if files.chnk != [] {
        var cleartext := protocol.decrypt(files.chnk);
        C := ParseChunks(cleartext, image.chunks);
      } else {
        C := new Chunk[SLOTS](_ => ZERO_CHUNK);
      }
      assert C[..] == image.chunks;
      chunkChanges := 0;
      chunks := C;
    }

    method GetChunk(id: nat) returns (c: Chunk)
      requires Valid() && id < SLOTS
      modifies this
      ensures Valid() && held == old(held) && last == old(last)
      ensures held[id].Some? ==> c == last[id]
      ensures hashes == old(hashes) && (old(Clean()) ==> Clean())
      ensures chunks == old(chunks) || fresh(chunks)
    {
      if chunks == null {
        LoadChunks();
      }
      c := chunks[id];
    }

    method GetHash(id: nat) returns (h: Slot)
      requires Valid() && id < SLOTS
      modifies this
      ensures Valid() && held == old(held) && last == old(last)
      ensures h == held[id]
      ensures hashes == old(hashes) || fresh(hashes)
    {
      if hashes == null {
        LoadHashes();
      }
      h := hashes[id];
    }

    method PutHashAndChunk(id: nat, h: Slot, c: Chunk)
      requires Valid() && id < SLOTS && SlotFits(h)
      modifies this, chunks, hashes
      ensures Valid() && held == old(held)[id := h] && last == old(last)[id := c]
      ensures image == old(image) && hashes != null
      ensures hashes == old(hashes) || fresh(hashes)
      ensures chunks == old(chunks) || fresh(chunks)
    {
      hide FilesHold, Decrypts, ImageOk, Saved, SlotFits, KeptAll, AnyHash;
      if hashes == null {
        LoadHashes();
      }
      if chunks == null {
        LoadChunks();
      }
      PutLoaded(id, h, c);
    }

    method PutLoaded(id: nat, h: Slot, c: Chunk)
      requires Valid() && id < SLOTS && SlotFits(h) && hashes != null && chunks != null
      modifies `chunkChanges, `hashChanges, `held, `last, chunks, hashes
      ensures Valid() && held == old(held)[id := h] && last == old(last)[id := c]
    {
      hide FilesHold, Decrypts, ImageOk, Saved, SlotFits, KeptAll, AnyHash;
      chunkChanges := chunkChanges + 1;
      hashChanges := hashChanges + 1;
      hashes[id] := h;
      chunks[id] := c;
      held, last := held[id := h], last[id := c];
    }

    method ClearHashAndChunk(id: nat)
      requires Valid() && id < SLOTS
      modifies this, chunks, hashes
      ensures Valid() && held == old(held)[id := None] && last == old(last)[id := ZERO_CHUNK]
      ensures image == old(image) && hashes != null
      ensures hashes == old(hashes) || fresh(hashes)
      ensures chunks == old(chunks) || fresh(chunks)
    {
      PutHashAndChunk(id, None, ZERO_CHUNK);
    }

    /** A hash object of this bucket changes its count, and says so. */
    method Recount(id: nat, refcnt: nat)
      requires Valid() && id < SLOTS && held[id].Some? && hashes != null && refcnt < Range(8) / 2
      modifies `held, `hashChanges, hashes
      ensures Valid() && held == old(held)[id := Some(old(held)[id].value.(refcnt := refcnt))] && last == old(last)
    {
      hide Flat, Range;
      hashes[id] := Some(hashes[id].value.(refcnt := refcnt));
      held := held[id := Some(held[id].value.(refcnt := refcnt))];
      hashChanges := hashChanges + 1;
    }

    /** hashChanged: only the counter, whether or not the records are in memory. */
    method HashChanged()
      requires Valid()
      modifies `hashChanges
      ensures Valid() && !Clean()
    {
      hashChanges := hashChanges + 1;
    }

    /** The part of store that fills and writes the two files. */
    method WriteFiles(C: array?<Chunk>, H: array<Slot>)
      requires Decrypts(protocol) && ImageOk(image) && FilesHold(protocol, files.chnk, files.hsh, image)
      requires (C != null ==> C.Length == SLOTS) && H.Length == SLOTS && forall k :: 0 <= k < SLOTS ==> SlotFits(H[k])
      modifies files, `image
      ensures ImageOk(image) && FilesHold(protocol, files.chnk, files.hsh, image)
      ensures image == if AnyHash(H[..]) then Image(if C != null then C[..] else old(image).chunks, H[..]) else old(image)
    {
      hide Flat, SlotFits, AnyHash, RecordBytes;
      var cipher: seq<Byte> := [];
      if C != null || files.chnk == [] {
        var cleartext: seq<Byte>;
        if C != null {
          cleartext := FormatChunks(C);
        } else {
          cleartext := Zeros(CHUNK_SIZE * SLOTS);
          FlatZeros(image.chunks, SLOTS);
        }
        cipher := protocol.encrypt(cleartext);
      }
      var cleartextH, num := FormatSlots(protocol, H);
      if num > 0 {
        if cipher != [] {
          files.chnk := cipher;
        }
        files.hsh := protocol.encrypt(cleartextH);
        image := Image(if C != null then C[..] else image.chunks, H[..]);
      }
    }

    /** store: writes the chunks if they are in memory and the records, unless no record is left;
        with clearCache the chunks are dropped. The result is false when the assertion that the
        records are in memory aborts the process. */
    method Store(clearCache: bool) returns (ok: bool)
      requires Consistent()
      modifies this, files
      ensures ok <==> old(Clean()) || old(hashes) != null
      ensures ok ==> Consistent() && held == old(held) && last == old(last) && hashes == old(hashes)
      ensures ok && !old(Clean()) ==> Clean() && Valid() && changes == [] && chunks == if clearCache then null else old(chunks)
      ensures ok && old(Clean()) ==> chunks == old(chunks) && changes == old(changes) && Clean()
      ensures ok && hashes != null && AnyHash(held) ==> Saved(held, last, image)
      ensures old(Clean()) || !AnyHash(held) ==> image == old(image)
    {
      hide FilesHold, Decrypts, SlotFits, KeptAll;
      if hashChanges > 0 || chunkChanges > 0 {
        var C, H := chunks, hashes;
        changes := [];
        if clearCache {
          chunks := null;
        }
        hashChanges, chunkChanges := 0, 0;
        if H == null {
          return false;
        }
        WriteFiles(C, H);
        if AnyHash(held) {
          JustSaved(held, last, image);
        }
      }
      ok := true;
    }

    /** The destructor stores what is in memory. */
    method Close() returns (ok: bool)
      requires Valid()
      modifies this, files
      ensures ok <==> old(Clean()) || old(hashes) != null || old(chunks) == null
      ensures ok && AnyHash(held) ==> Saved(held, last, image)
      ensures ok ==> Decrypts(protocol) && ImageOk(image) && FilesHold(protocol, files.chnk, files.hsh, image)
      ensures ok ==> held == old(held) && last == old(last)
      ensures ok && !AnyHash(held) ==> image == old(image)
    {
      ok := true;
      if chunks != null || hashes != null {
        ok := Store(false);
      }
    }

    /** addChange: a journal entry waits for the next store; a full log is stored at once. */
    method AddChange(entry: nat) returns (ok: bool)
      requires Valid()
      modifies this, files
      ensures ok <==> |old(changes)| < 1024 || old(hashes) != null
      ensures ok ==> Valid() && held == old(held) && last == old(last)
      ensures ok ==> changes == (if |old(changes)| < 1024 then old(changes) else []) + [entry]
      ensures ok && |old(changes)| == 1024 && AnyHash(held) ==> Saved(held, last, image)
    {
      hide FilesHold, Decrypts, ImageOk, Saved, SlotFits, KeptAll, AnyHash, Agree;
      while true
        invariant Valid() && held == old(held) && last == old(last) && hashes == old(hashes)
        invariant changes == old(changes) || (changes == [] && |old(changes)| == 1024)
        invariant changes == [] && |old(changes)| == 1024 ==> hashes != null && (AnyHash(held) ==> Saved(held, last, image))
        decreases |changes| == 1024
      {
        if |changes| < 1024 {
          changes := changes + [entry];
          return true;
        }
        hashChanges := hashChanges + 1;
        chunkChanges := chunkChanges + 1;
        ok := Store(false);
        if !ok {
          return;
        }
      }
    }
  }

  /** Closing a bucket and opening its files again shows the same slots exactly when a hash is
      left to store or the files hold none: with no hash left, store does not touch files that
      may still hold old ones. */
  method Reopen(b: Bucket) returns (again: Bucket, ok: bool)
    requires b.Valid()
    modifies b, b.files
    ensures ok <==> old(b.Clean()) || old(b.hashes) != null || old(b.chunks) == null
    ensures ok ==> again.Valid() && again.files == b.files
    ensures ok ==>
      (again.held == KeptAll(old(b.held)) && Agree(again.held, old(b.last), again.last)
       <==> AnyHash(old(b.held)) || !AnyHash(KeptAll(old(b.image).slots)))
    ensures ok && !AnyHash(old(b.held)) ==> again.held == KeptAll(old(b.image).slots)
  {
    ok := b.Close();
    if !ok {
      again := b;
      return;
    }
    again := new Bucket(b.protocol, b.files, b.image);
    SameSlots(old(b.held), old(b.last), old(b.image), b.image);
  }

  lemma SameSlots(held: seq<Slot>, last: seq<Chunk>, before: Image, image: Image)
    requires |held| == |last| && ImageOk(image) && |held| == SLOTS
    requires if AnyHash(held) then Saved(held, last, image) else image == before
    ensures KeptAll(image.slots) == KeptAll(held) && Agree(KeptAll(image.slots), last, image.chunks)
            <==> AnyHash(held) || !AnyHash(KeptAll(before.slots))
  {
    if AnyHash(held) {
    } else {
      NoHash(held);
      if !AnyHash(KeptAll(before.slots)) { NoHash(KeptAll(before.slots)); }
    }
  }

  lemma NoHash(slots: seq<Slot>)
    requires !AnyHash(slots)
    ensures forall k :: 0 <= k < |slots| ==> slots[k] == None
    ensures KeptAll(slots) == slots
  {
  }

  /** A record that is stored and then cleared: the bucket holds nothing any more, and its files
      still hold the record. */
  method StoreAndClear(protocol: Protocol, files: BucketFiles, h: HashRecord, c: Chunk) returns (b: Bucket)
    requires Decrypts(protocol) && files.chnk == [] && files.hsh == []
    requires SlotFits(Some(h)) && h.refcnt > 0
    modifies files
    ensures b.Valid() && b.files == files && fresh(b) && b.hashes != null && !AnyHash(b.held)
    ensures KeptAll(b.image.slots)[0] == Some(h)
  {
    hide Decrypts, SlotFits, FilesHold, ImageOk, KeptAll, AnyHash, Saved, Agree, Kept;
    ghost var empty := Image(seq(SLOTS, _ => ZERO_CHUNK), seq(SLOTS, _ => None));
    EmptyImage(protocol, empty);
    b := new Bucket(protocol, files, empty);
    b.PutHashAndChunk(0, Some(h), c);
    HasHash(b.held, 0);
    var ok := b.Store(false);
    SavedAt(b.held, b.last, b.image, 0);
    b.ClearHashAndChunk(0);
    OnlyHash(empty.slots, b.held);
  }

  /** When such a bucket is closed and its files are opened again, the record is back. */
  method ClearedComesBack(b: Bucket, k: nat) returns (again: Bucket)
    requires b.Valid() && b.hashes != null && !AnyHash(b.held) && k < SLOTS == |b.image.slots|
    modifies b, b.files
    ensures again.Valid() && again.files == b.files
    ensures again.held[k] == KeptAll(old(b.image).slots)[k]
  {
    hide b.Consistent, KeptAll, AnyHash;
    var ok;
    again, ok := Reopen(b);
  }

  lemma HasHash(held: seq<Slot>, k: nat)
    requires k < |held| && held[k].Some?
    ensures AnyHash(held)
  {
  }

  lemma SavedAt(held: seq<Slot>, last: seq<Chunk>, image: Image, k: nat)
    requires Saved(held, last, image) && ImageOk(image) && k < |held| == SLOTS && held[k].Some? && held[k].value.refcnt > 0
    ensures KeptAll(image.slots)[k] == held[k]
  {
  }

  lemma OnlyHash(slots: seq<Slot>, held: seq<Slot>)
    requires forall k :: 0 <= k < |slots| ==> slots[k] == None
    requires |held| == |slots| > 0 && held == KeptAll(slots)[0 := None]
    ensures !AnyHash(held)
  {
  }

  lemma EmptyImage(p: Protocol, empty: Image)
    requires Decrypts(p) && empty == Image(seq(SLOTS, _ => ZERO_CHUNK), seq(SLOTS, _ => None))
    ensures ImageOk(empty) && FilesHold(p, [], [], empty)
  {
  }

  // ---------- any sequence of operations ----------

  datatype CacheOp = Put(id: nat, h: Slot, c: Chunk) | Clear(id: nat) | StoreAll(clearCache: bool) | GetIt(id: nat)

  predicate OpFits(op: CacheOp) {
    match op
    case Put(id, h, _) => id < SLOTS && SlotFits(h)
    case Clear(id) => id < SLOTS
    case StoreAll(_) => true
    case GetIt(id) => id < SLOTS
  }

  /** What an operation puts in a slot. */
  function Effect(op: CacheOp, id: nat): Option<(Slot, Chunk)> {
    match op
    case Put(i, h, c) => if i == id then Some((h, c)) else None
    case Clear(i) => if i == id then Some((None, ZERO_CHUNK)) else None
    case _ => None
  }

  /** What the last put or clear of a slot put there. */
  function LastPut(ops: seq<CacheOp>, id: nat): Option<(Slot, Chunk)> {
    if ops == [] then None
    else if Effect(ops[|ops| - 1], id).Some? then Effect(ops[|ops| - 1], id)
    else LastPut(ops[..|ops| - 1], id)
  }

  lemma LastPutNext(ops: seq<CacheOp>, k: nat, id: nat)
    requires k < |ops|
    ensures LastPut(ops[..k + 1], id) == if Effect(ops[k], id).Some? then Effect(ops[k], id) else LastPut(ops[..k], id)
  {
    assert ops[..k + 1][..k] == ops[..k];
  }

  /** It is what the put or clear at step k put there, if no later one is about the slot; stores and
      reads put nothing. */
  lemma {:induction false} LastPutIs(ops: seq<CacheOp>, k: nat, id: nat)
    requires k < |ops| && forall i :: k < i < |ops| ==> ops[i].StoreAll? || ops[i].id != id || ops[i].GetIt?
    ensures ops[k].Put? && ops[k].id == id ==> LastPut(ops, id) == Some((ops[k].h, ops[k].c))
    ensures ops[k].Clear? && ops[k].id == id ==> LastPut(ops, id) == Some((None, Zeros(4096)))
    ensures k == 0 && (ops[0].StoreAll? || ops[0].id != id || ops[0].GetIt?) ==> LastPut(ops, id) == None
    decreases |ops|
  {
    if k < |ops| - 1 {
      LastPutIs(ops[..|ops| - 1], k, id);
    }
  }

  method Apply(b: Bucket, op: CacheOp, ghost id: nat)
    requires b.Valid() && (b.Clean() || b.hashes != null) && OpFits(op) && id < SLOTS
    modifies b, b.files, b.chunks, b.hashes
    ensures b.Valid() && (b.Clean() || b.hashes != null)
    ensures b.chunks == old(b.chunks) || b.chunks == null || fresh(b.chunks)
    ensures b.hashes == old(b.hashes) || b.hashes == null || fresh(b.hashes)
    ensures (b.held[id], b.last[id]) ==
            if Effect(op, id).Some? then Effect(op, id).value else (old(b.held)[id], old(b.last)[id])
  {
    hide b.Consistent, SlotFits;
    match op
    case Put(i, slot, chunk) => b.PutHashAndChunk(i, slot, chunk);
    case Clear(i) => b.ClearHashAndChunk(i);
    case StoreAll(clearCache) => var ok := b.Store(clearCache);
    case GetIt(i) => var chunk := b.GetChunk(i);
  }

  /** After any sequence of puts, clears, stores and reads, every slot has the record put there
      last, and a slot with a record returns the chunk put there last. */
  method Run(b: Bucket, ops: seq<CacheOp>, id: nat) returns (h: Slot, c: Chunk)
    requires b.Valid() && (b.Clean() || b.hashes != null) && id < SLOTS
    requires forall i :: 0 <= i < |ops| ==> OpFits(ops[i])
    modifies b, b.files, b.chunks, b.hashes
    ensures b.Valid()
    ensures match LastPut(ops, id)
            case None => h == old(b.held)[id] && (h.Some? ==> c == old(b.last)[id])
            case Some(put) => h == put.0 && (h.Some? ==> c == put.1)
  {
    hide b.Consistent, OpFits, Effect, LastPut, SlotFits;
    LastPutNone(ops, id);
    for k := 0 to |ops|
      invariant b.Valid() && (b.Clean() || b.hashes != null)
      invariant b.chunks == old(b.chunks) || b.chunks == null || fresh(b.chunks)
      invariant b.hashes == old(b.hashes) || b.hashes == null || fresh(b.hashes)
      invariant (b.held[id], b.last[id]) ==
                if LastPut(ops[..k], id).Some? then LastPut(ops[..k], id).value else (old(b.held)[id], old(b.last)[id])
    {
      LastPutNext(ops, k, id);
      Apply(b, ops[k], id);
    }
    h := b.GetHash(id);
    c := b.GetChunk(id);
  }

  lemma LastPutNone(ops: seq<CacheOp>, id: nat)
    ensures LastPut(ops[..0], id) == None && ops[..|ops|] == ops
  {
  }

  lemma JustSaved(held: seq<Slot>, last: seq<Chunk>, image: Image)
    requires image.slots == held && Agree(held, last, image.chunks)
    ensures Saved(held, last, image)
  {
  }
}
