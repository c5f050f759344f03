/** Filling the blocks of a chain with a list of hashes or with metadata, and reading them back
    (file::rest and file::loadHashes, src/modules/filesystem/file.cpp; storeMetaDataInINode and
    loadMetaDataFromINode, src/modules/filesystem/fs.cpp). */
module InodeContents {
  import opened Pool
  import opened Chunks
  import opened Flattening
  import opened InodeState

  // ---------- filling blocks one after the other ----------

  /** `s` made n long with zeros. */
  function Padded<T>(s: seq<T>, n: nat, zero: T): (r: seq<T>)
    ensures |r| == Max(|s|, n)
  {
    if |s| < n then s + seq(n - |s|, _ => zero) else s
  }

  /** Item k comes next, at place (p, idx); what is not filled yet is as it was. */
  ghost predicate Filling<T>(was: seq<seq<T>>, now: seq<seq<T>>, items: seq<T>, k: nat, p: nat, idx: nat, zero: T) {
    && p < |now| && |now| == Max(|was|, p + 1) && |Flat(was)| <= |Flat(now)|
    && idx <= |now[p]| && k == Start(now, p) + idx && k <= |items| && k <= |Flat(now)|
    && Flat(now) == items[..k] + Padded(Flat(was), |Flat(now)|, zero)[k..]
  }

  lemma FillStart<T>(was: seq<seq<T>>, now: seq<seq<T>>, items: seq<T>, block: seq<T>, zero: T)
    requires now == (if was == [] then [block] else was) && block == seq(|block|, _ => zero)
    ensures Filling(was, now, items, 0, 0, 0, zero)
  {
    if was == [] {
      FlatPush([], block);
      assert Flat(now) == block;
    }
  }

  lemma SetBehind<T>(f: seq<T>, front: seq<T>, tail: seq<T>, k: nat, x: T)
    requires |front| == k < |tail| && f == front + tail[k..]
    ensures f[k := x] == (front + [x]) + tail[k + 1..]
  {
  }

  function Put<T>(blocks: seq<seq<T>>, p: nat, idx: nat, x: T): (r: seq<seq<T>>)
    requires p < |blocks| && idx < |blocks[p]|
    ensures |r| == |blocks|
  {
    blocks[p := blocks[p][idx := x]]
  }

  lemma FillOne<T>(was: seq<seq<T>>, now: seq<seq<T>>, items: seq<T>, k: nat, p: nat, idx: nat, zero: T)
    requires Filling(was, now, items, k, p, idx, zero) && k < |items| && idx < |now[p]|
    ensures Filling(was, Put(now, p, idx, items[k]), items, k + 1, p, idx + 1, zero)
  {
    hide Flat, Padded;
    FlatUpdate(now, p, idx, items[k]);
    SetBehind(Flat(now), items[..k], Padded(Flat(was), |Flat(now)|, zero), k, items[k]);
    assert items[..k + 1] == items[..k] + [items[k]];
  }

  /** The block is full and another one follows. */
  lemma FillOn<T>(was: seq<seq<T>>, now: seq<seq<T>>, items: seq<T>, k: nat, p: nat, zero: T)
    requires p + 1 < |now| && Filling(was, now, items, k, p, |now[p]|, zero)
    ensures Filling(was, now, items, k, p + 1, 0, zero)
  {
    hide Flat, Padded;
    StartNext(now, p);
  }

  lemma PadFront<T>(f: seq<T>, k: nat, front: seq<T>, was: seq<T>, n: nat, m: nat, zero: T)
    requires |front| == k <= n <= m && |was| <= n && f == front + Padded(was, n, zero)[k..] && |f| == n
    ensures f + seq(m - n, _ => zero) == front + Padded(was, m, zero)[k..]
  {
  }

  /** The block is full and the last one. */
  lemma FillGrow<T>(was: seq<seq<T>>, now: seq<seq<T>>, items: seq<T>, k: nat, p: nat, block: seq<T>, zero: T)
    requires p + 1 == |now| && Filling(was, now, items, k, p, |now[p]|, zero)
    requires block == seq(|block|, _ => zero)
    ensures Filling(was, now + [block], items, k, p + 1, 0, zero)
  {
    hide Flat, Padded;
    var after := now + [block];
    FlatPush(now, block);
    StartNext(now, p);
    assert now[..p + 1] == now == after[..p + 1];
    PadFront(Flat(now), k, items[..k], Flat(was), |Flat(now)|, |Flat(after)|, zero);
  }

  // ---------- the slots of a file ----------

  ghost predicate Shaped(slots: seq<seq<nat>>) {
    && slots != [] && |slots[0]| == INODE_SLOTS
    && forall p :: 0 < p < |slots| ==> |slots[p]| == CTD_SLOTS
  }

  /** Where block p of a file starts in its list. */
  function StartOf(p: nat): nat {
    if p == 0 then 0 else 495 + (p - 1) * 508
  }

  lemma {:induction false} StartShaped(slots: seq<seq<nat>>, p: nat)
    requires Shaped(slots) && p <= |slots|
    ensures Start(slots, p) == StartOf(p)
  {
    if p > 0 {
      StartShaped(slots, p - 1);
      StartNext(slots, p - 1);
    }
  }

  /** The block that entry k of the list is in, and where. */
  function BlockOf(k: nat): nat {
    if k < 495 then 0 else 1 + (k - 495) / 508
  }

  function OffsetOf(k: nat): nat {
    if k < 495 then k else (k - 495) % 508
  }

  lemma PlaceOfEntry(p: nat, j: nat, k: nat)
    requires j < if p == 0 then INODE_SLOTS else CTD_SLOTS
    ensures k == StartOf(p) + j <==> p == BlockOf(k) && j == OffsetOf(k)
  {
  }

  /** What file::rest leaves in the blocks of a file: the list, and behind it what was there. */
  ghost predicate Rested(was: seq<seq<nat>>, now: seq<seq<nat>>, hashes: seq<nat>) {
    && Shaped(now) && |now| == Max(|was|, BlockOf(|hashes|) + 1)
    && |hashes| <= |Flat(now)| && |Flat(was)| > 0
    && Flat(now) == if hashes == [] then [0] + Flat(was)[1..] else hashes + Padded(Flat(was), |Flat(now)|, 0)[|hashes|..]
  }

  lemma RestDone(was: seq<seq<nat>>, now: seq<seq<nat>>, hashes: seq<nat>, p: nat, idx: nat)
    requires Shaped(was) && Shaped(now) && hashes != []
    requires Filling(was, now, hashes, |hashes|, p, idx, 0) && idx < |now[p]|
    ensures Rested(was, now, hashes)
  {
    hide Flat, Padded;
    StartShaped(now, p);
    PlaceOfEntry(p, idx, |hashes|);
    FlatAt(was, 0, 0);
    assert hashes[..|hashes|] == hashes;
  }

  lemma RestNothing(was: seq<seq<nat>>)
    requires Shaped(was)
    ensures Rested(was, was[0 := was[0][0 := 0]], [])
  {
    FlatUpdate(was, 0, 0, 0);
  }

  // ---------- reading them back ----------

  /** What loadHashes makes of the slots: it stops at an empty slot or at the end of the chain,
      and takes the zero hash for what is missing. */
  function Loaded(F: seq<nat>, n: nat, known: set<nat>): (list: seq<nat>)
    ensures |list| == n
  {
    if n == 0 || F == [] || F[0] == 0 then ZeroHashes(n)
    else [if F[0] in known then F[0] else ZERO_HASH] + Loaded(F[1..], n - 1, known)
  }

  /** The references loadHashes takes on the zero hash: one for each entry it does not find. */
  function Missing(F: seq<nat>, n: nat, known: set<nat>): (zeros: nat)
    ensures zeros <= n
  {
    if n == 0 || F == [] || F[0] == 0 then n
    else (if F[0] in known then 0 else 1) + Missing(F[1..], n - 1, known)
  }

  const ZERO_HASH: nat := IndexOf(1, 0)

  function ZeroHashes(n: nat): (list: seq<nat>)
    ensures |list| == n && forall i :: 0 <= i < n ==> list[i] == ZERO_HASH
  {
    seq(n, _ => ZERO_HASH)
  }

  lemma LoadStart(slots: seq<seq<nat>>)
    ensures Start(slots, 0) == 0 && Start(slots, |slots|) == |Flat(slots)|
    ensures Flat(slots)[0..] == Flat(slots)
  {
    assert slots[..|slots|] == slots;
  }

  lemma LoadStep(F: seq<nat>, k: nat, n: nat, hashes: seq<nat>, known: set<nat>)
    requires k < |F| && n > 0
    ensures F[k] == 0 ==> Loaded(F[k..], n, known) == ZeroHashes(n) && Missing(F[k..], n, known) == n
    ensures F[k] != 0 ==>
              Missing(F[k..], n, known) == (if F[k] in known then 0 else 1) + Missing(F[k + 1..], n - 1, known)
    ensures F[k] != 0 ==>
              hashes + Loaded(F[k..], n, known)
              == (hashes + [if F[k] in known then F[k] else ZERO_HASH]) + Loaded(F[k + 1..], n - 1, known)
  {
    assert F[k..][1..] == F[k + 1..];
  }

  lemma LoadEnd(F: seq<nat>, n: nat, known: set<nat>)
    ensures Loaded(F[|F|..], n, known) == ZeroHashes(n) && Loaded(F, 0, known) == ZeroHashes(0)
    ensures forall k :: 0 <= k <= |F| ==> Loaded(F[k..], 0, known) == ZeroHashes(0)
    ensures Missing(F[|F|..], n, known) == n
  {
  }

  lemma {:induction false} LoadedIsList(F: seq<nat>, hashes: seq<nat>, n: nat, known: set<nat>)
    requires n <= |hashes| && hashes <= F
    requires forall h :: h in hashes ==> h != 0 && h in known
    ensures Loaded(F, n, known) == hashes[..n] && Missing(F, n, known) == 0
  {
    if n > 0 {
      assert hashes[1..] <= F[1..] && forall h :: h in hashes[1..] ==> h in hashes;
      LoadedIsList(F[1..], hashes[1..], n - 1, known);
      assert hashes[..n] == [hashes[0]] + hashes[1..][..n - 1];
    } else {
      assert hashes[..0] == [];
    }
  }

  /** The slots up to entry k are in use, and the hash of slot k is known. */
  predicate Found(F: seq<nat>, k: nat, known: set<nat>) {
    k < |F| && F[k] in known && forall j :: 0 <= j <= k ==> F[j] != 0
  }

  /** Entry by entry: a slot that names a known hash loads as that hash; an unknown hash, and all from
      the first empty slot on, load as the zero hash, with a reference each. */
  lemma {:induction false} LoadedEntry(F: seq<nat>, n: nat, known: set<nat>, k: nat)
    requires k < n
    ensures Loaded(F, n, known)[k] == if Found(F, k, known) then F[k] else 256
    ensures Missing(F, n, known) == (if Found(F, 0, known) then 0 else 1)
                                    + if F == [] || F[0] == 0 then n - 1 else Missing(F[1..], n - 1, known)
    decreases k
  {
    if F != [] && F[0] != 0 && k > 0 {
      LoadedEntry(F[1..], n - 1, known, k - 1);
      assert Found(F, k, known) ==> Found(F[1..], k - 1, known) by {
        assert forall j :: 0 <= j < k ==> j < |F[1..]| ==> F[1..][j] == F[j + 1];
      }
      assert Found(F[1..], k - 1, known) ==> Found(F, k, known) by {
        assert forall j :: 0 < j <= k ==> j < |F| ==> F[j] == F[1..][j - 1];
      }
    }
  }

  /** Loading after resting gives the entries the file's size calls for, however long the chain
      was before and whatever was left in it, and takes no reference on the zero hash. */
  lemma LoadAfterRest(was: seq<seq<nat>>, now: seq<seq<nat>>, hashes: seq<nat>, size: nat, known: set<nat>)
    requires Rested(was, now, hashes) && ChunksFor(size) <= |hashes|
    requires forall h :: h in hashes ==> h != 0 && h in known
    ensures Loaded(Flat(now), ChunksFor(size), known) == hashes[..ChunksFor(size)]
    ensures Missing(Flat(now), ChunksFor(size), known) == 0
  {
    hide Flat, ChunksFor, Padded;
    if hashes != [] {
      LoadedIsList(Flat(now), hashes, ChunksFor(size), known);
    }
  }

  /** Entry k of the list lies at index k of the inode, or at index (k-495) % 508 of
      continuation block (k-495) / 508. */
  lemma EntryPlace(was: seq<seq<nat>>, now: seq<seq<nat>>, hashes: seq<nat>, k: nat)
    requires Rested(was, now, hashes) && k < |hashes|
    ensures BlockOf(k) < |now| && OffsetOf(k) < |now[BlockOf(k)]| && now[BlockOf(k)][OffsetOf(k)] == hashes[k]
  {
    hide Flat, Padded;
    BlocksUpTo(k, |hashes|);
    StartShaped(now, BlockOf(k));
    PlaceOfEntry(BlockOf(k), OffsetOf(k), k);
    FlatAt(now, BlockOf(k), OffsetOf(k));
  }

  lemma BlocksUpTo(k: nat, n: nat)
    requires k <= n
    ensures BlockOf(k) <= BlockOf(n) && OffsetOf(k) < if BlockOf(k) == 0 then INODE_SLOTS else CTD_SLOTS
  {
  }

  // ---------- metadata strings ----------

  ghost predicate TextShaped(text: seq<seq<Byte>>) {
    forall p :: 0 <= p < |text| ==> |text[p]| == CTD_CHARS
  }

  function TextStart(p: nat): nat {
    p * 4064
  }

  lemma {:induction false} StartText(text: seq<seq<Byte>>, p: nat)
    requires TextShaped(text) && p <= |text|
    ensures Start(text, p) == TextStart(p)
  {
    if p > 0 {
      StartText(text, p - 1);
      StartNext(text, p - 1);
    }
  }

  /** What storing a string leaves on the chain: the string, and behind it what was there. */
  ghost predicate TextStored(was: seq<seq<Byte>>, now: seq<seq<Byte>>, input: seq<Byte>) {
    && TextShaped(now) && |now| == Max(|was|, |input| / 4064 + 1)
    && |Flat(was)| <= |Flat(now)| && |input| < |Flat(now)|
    && Flat(now) == input + Padded(Flat(was), |Flat(now)|, 0)[|input|..]
  }

  lemma StoreDone(was: seq<seq<Byte>>, now: seq<seq<Byte>>, input: seq<Byte>, p: nat, offset: nat)
    requires TextShaped(now) && Filling(was, now, input, |input|, p, offset, 0) && offset < |now[p]|
    ensures TextStored(was, now, input)
  {
    hide Flat, Padded;
    StartText(now, p);
    FlatAt(now, p, offset);
    assert input[..|input|] == input;
  }

  const SPACE: Byte := 32

  /** Without its trailing zeros. */
  function Stripped(s: seq<Byte>): (r: seq<Byte>)
    ensures r <= s && (r != [] ==> r[|r| - 1] != 0)
    ensures forall k :: |r| <= k < |s| ==> s[k] == 0
  {
    if s != [] && s[|s| - 1] == 0 then Stripped(s[..|s| - 1]) else s
  }

  function Resized(s: seq<Byte>, n: nat): (r: seq<Byte>)
    ensures |r| == n
  {
    if |s| >= n then s[..n] else s + seq(n - |s|, _ => SPACE)
  }

  /** What loading makes of a chain and the recorded size. */
  function Restored(text: seq<Byte>, metasize: nat): (r: seq<Byte>)
    ensures |r| == metasize
  {
    if metasize == 0 then [] else Resized(Stripped(text), metasize)
  }

  ghost predicate NonZeroFrom(s: seq<Byte>, n: nat) {
    exists k :: n <= k < |s| && s[k] != 0
  }

  /** The string comes back exactly when it is empty, or does not end in NUL, or something other
      than NUL lies behind it on the chain. */
  lemma LoadAfterStore(was: seq<seq<Byte>>, now: seq<seq<Byte>>, input: seq<Byte>)
    requires TextStored(was, now, input)
    ensures Restored(Flat(now), |input|) == input <==>
            input == [] || input[|input| - 1] != 0 || NonZeroFrom(Flat(was), |input|)
  {
    hide Flat, Padded, NonZeroFrom;
    if input != [] {
      StripKeeps(Flat(now), input);
      BehindInput(Flat(now), input, Flat(was));
    }
  }

  lemma PaddedNonZero(s: seq<Byte>, n: nat)
    requires |s| <= n
    ensures forall k :: 0 <= k < n ==> Padded(s, n, 0)[k] == if k < |s| then s[k] else 0
  {
  }

  /** A NUL at the end of the string, with nothing behind it, comes back as a space. */
  lemma TrailingNulLost(now: seq<seq<Byte>>)
    requires TextStored([], now, [0])
    ensures Restored(Flat(now), 1) == [SPACE]
  {
    PaddedNonZero([], |Flat(now)|);
    var s := Stripped(Flat(now));
    assert forall k :: 0 <= k < |Flat(now)| ==> Flat(now)[k] == 0;
    assert s == [];
  }

  lemma BehindInput(f: seq<Byte>, input: seq<Byte>, was: seq<Byte>)
    requires |was| <= |f| && |input| <= |f| && f == input + Padded(was, |f|, 0)[|input|..]
    ensures NonZeroFrom(f, |input|) <==> NonZeroFrom(was, |input|)
  {
    forall k | |input| <= k < |f| ensures f[k] == if k < |was| then was[k] else 0 {
      PaddedNonZero(was, |f|);
      hide Padded;
      assert f[k] == Padded(was, |f|, 0)[k];
    }
    assert forall k :: |input| <= k < |was| ==> f[k] == was[k];
  }

  lemma StripKeeps(f: seq<Byte>, input: seq<Byte>)
    requires input != [] && input <= f
    ensures Resized(Stripped(f), |input|) == input <==>
            input[|input| - 1] != 0 || NonZeroFrom(f, |input|)
  {
    var s, n := Stripped(f), |input|;
    if |s| >= n {
      assert s[..n] == f[..n] == input;
      if |s| > n { assert f[|s| - 1] != 0; }
    } else {
      assert Resized(s, n)[n - 1] == SPACE && f[n - 1] == 0;
    }
  }
}
