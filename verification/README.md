# cloudCryptFS: verified model

cloudCryptFS keeps files as lists of shared, immutable 4096-byte chunks. Chunks are found by
digest, counted by references and stored in encrypted buckets of 256 blocks; inodes and their
continuation blocks live in metadata buckets of the same form; a journal of per-thread files
replays what a crash interrupted. This project models that core and proves what it promises.

| files | what they model |
|---|---|
| `NodeLists.dfy`, `Pool.dfy`, `Accounting.dfy`, `AccountingRuns.dfy` | the block allocator: two intrusive lists over 2560 nodes; buckets are created ten at a time and released when wholly free |
| `Chunks.dfy`, `StoreState.dfy`, `Store.dfy` | hash objects, the digest index and the data blocks, on top of the allocator |
| `FlatFiles.dfy`, `Files.dfy`, `FileSystem.dfy`, `FileRuns.dfy`, `Dedup.dfy` | files on the store, the flat byte arrays they amount to, what runs of operations do to them byte by byte, and what holds between operations |
| `Flattening.dfy`, `InodeState.dfy`, `InodeContents.dfy`, `MetaStore.dfy`, `MetaSession.dfy` | inodes, content and metadata chains, deletion, and the loop that stores the bucket lists |
| `Buckets.dfy`, `BlockEvents.dfy`, `DataBuckets.dfy`, `DataBucketRuns.dfy`, `BucketRaces.dfy` | the bucket as a write-back cache over two encrypted files, all data buckets together under the calls the chunk store makes, and two threads between them and the allocator |
| `StoredFiles.dfy`, `StoredLists.dfy` | the models put together: files over data buckets, and hash lists written to inodes and loaded again |
| `JournalRecords.dfy`, `JournalReplay.dfy`, `JournalMachine.dfy`, `JournalHistory.dfy` | journal framing, replay, the threads that add and close entries, and what their steps leave unfinished |
| `Mutex.dfy`, `MutexCalls.dfy` | the spin-based recursive reader/writer lock, one atomic access a step, and what its calls amount to |
| `Wrappers.dfy` | values that may be missing |
| `Lexing.dfy`, `Json.dfy` | directories printed as JSON and parsed back |

A failed `_ASSERT` ends the process (src/main.cpp:176-181). Where one guards against the caller,
it is a precondition (`LengthAborts`, which `FlatFiles.AbortsExactly` describes, and
`SwapAborts`); where it depends on the state of the store, the operation returns `ok == false`
and its contract says exactly when, or that more than ten buckets must be in use.

Heap objects of the original are classes here: allocator, node lists, store, hashes, files,
journal files, buckets. Their contracts compare ghost snapshots with pure functions, and the
invariants are proved about those values. `hide` statements keep definitions out of proofs that
do not need them.

## What the model found

- An unaligned write lengthens the list by a slot that a later aligned write may trip over:
  `FlatFiles.AbortsExactly` says when, `FlatFiles.UnalignedThenAlignedAborts` gives the shortest
  run, and `FileRuns.AlignedRunsGo` shows that no run of aligned writes does.
- A swap meets its assertion exactly when a 4096-byte piece of the new content, or what is left at
  its end, is all zeros (`FlatFiles.SwapAbortsExactly`).
- The comment on the fragmentation assertion is right: `Accounting.BucketAccounting.Post` fails
  exactly without a free node and without a wholly free bucket, which takes eleven buckets;
  `Accounting.FragmentedMount` is such a mount.
- A bucket whose last hash goes is not written, so that its files keep the old records and show
  them when they are opened again (`Buckets.Reopen`, `Buckets.StoreAndClear`,
  `Buckets.ClearedComesBack`). That takes a bucket number that is used again. In no run of the
  allocator is a number created twice (`AccountingRuns.NoNumberTwice`), and on a new file system no
  number that was ever in use is created (`AccountingRuns.FromMkfs`). The search for numbers starts
  at 1 at every mount, though: only numbers of the mounted image can return
  (`AccountingRuns.OnlyFirstNumbersReturn`), and one that was released does so exactly at a fetch
  from an empty pool for which it is, from the hint on, among the ten least numbers not in use
  (`AccountingRuns.CreatedExactly`). `AccountingRuns.NumbersReturn` is such a run.
- `decRefCnt` marks the bucket once more after posting the block
  (src/modules/filesystem/hash.cpp:69-75). In a single thread that is harmless: a post never
  releases the bucket of the index it takes, so counts only change while the records of their
  bucket are in memory, and the assertion in `store` (src/modules/filesystem/bucket.cpp:251) holds
  whatever the chunk store does (`DataBucketRuns.Run`, `StoredFiles.Session`). With two threads it
  can fail: another deletion between the post and the mark aborts the next `storeAllData` exactly
  when the first post left no node free and its bucket without anything held, so that the second
  post releases that bucket (`BucketRaces.DeleteTwo`). `BucketRaces.RaceState` makes such a state.
- The header of the mutex warns against locking while holding it shared. Waiting threads can all get
  through if and only if none does so and no shared holder asks to share again while a locker has
  already set the flag (`Mutex.WaitersGetThrough`); `Mutex.SharingAgainDeadlocks` is a run of two
  threads that deadlocks without any locking under a shared hold.
- A read that starts inside a chunk may be short: 4096 bytes from offset 1 on give 4095
  (`FlatFiles.ReadIsComplete`, `FlatFiles.ShortRead`).
- A metadata string that ends in NUL comes back with spaces, unless older text lies behind it
  (`InodeContents.LoadAfterStore`).
- A directory comes back from its printed form exactly when every inode number is within the 31
  bits that `std::stoi` reads and no name holds a quote, a backslash or byte 0xFF
  (`Json.PrintAndParse`). A text that parses as an object has to hold its names, and more for each
  name that needs an escape, and the printed form has nothing to spare (`Json.OnlyPlainReturn`).
- A crash replays the entries in the order in which the threads began to add them, whichever files
  they are in (`JournalHistory.Recover`, `JournalHistory.LaterIsGreater`).
- A journal file whose header was never flushed is harmless: the stream reader pads the header
  and finds no records (`JournalReplay.ReadFile`).

## Model

| member | source | states |
|---|---|---|
| `FileSystem.FileSystem.Run` | src/modules/filesystem/file.cpp:520-860 | Any run of creates, writes, truncates, content swaps and unlinks on any number of files that share the store leaves every file's padded bytes and size as the same run leaves independent flat byte arrays; it can only fail by the allocator's fragmentation abort, with more than ten buckets in use. |
| `FileSystem.Session` | src/modules/filesystem/file.cpp:520-860 | A session from mkfs on: any run of operations leaves exactly the byte arrays it leaves in the reference model, unless the allocator aborts it. |
| `FileSystem.FileSystem.Apply` | src/modules/filesystem/file.cpp:520-860 | One operation changes the file it names as the reference model says and no other file, whatever chunks they share. |
| `FileSystem.FileSystem.constructor` | src/modules/filesystem/fs.cpp:162-259 | A freshly made file system has no file contents, a valid store and nothing in common with what was there before. |
| `FileSystem.FileSystem.CreateFile` | src/modules/filesystem/fs.cpp:263-305 | A new file is empty; the others and the store are as before. |
| `FileSystem.FileSystem.WriteFile` | src/modules/filesystem/file.cpp:670-776 | A write makes of one flat file the reference write (`FlatFiles.WrittenSize`, `FlatFiles.WriteChangesItsRange`: exactly [offset, offset+size) changes, growth appends zeros, the size is the greater end) and leaves every other file alone. |
| `FileSystem.FileSystem.TruncateFile` | src/modules/filesystem/file.cpp:520-574 | A truncate makes of one flat file the reference truncate (`FlatFiles.TruncateKeepsBytes`: the new size, the chunk prefix, zeros behind) and leaves every other file alone. |
| `FileSystem.FileSystem.SwapFile` | src/modules/filesystem/file.cpp:822-860 | After swapContent the file is the reference swap (`FlatFiles.SwapLeavesContent`: exactly the new content, zero-padded to a chunk); no other file changes. |
| `FileSystem.FileSystem.UnlinkFile` | src/modules/filesystem/file.cpp:86-88 | Unlinking a file for good gives every reference of its list back and takes it off the files; the others are as before. |
| `FileSystem.FileSystem.ReadFile` | src/modules/filesystem/file.cpp:577-656 | A read returns the bytes the flat model holds from the offset on, of the exact length the code computes, and changes no file. |
| `FileSystem.ClaimsUpdate` | src/modules/util/atomic_shared_ptr_list.h:63-74 | Replacing the list of one file exchanges exactly that list's claims among the claims of all files. |
| `FileRuns.AfterOne` | src/modules/filesystem/file.cpp:520-860 | What one operation does to all files, with sizes and every byte written out: a create appends an empty file, an unlink takes one out, a write, truncate or swap changes the size and bytes of the file it names as said and no other file. |
| `FileRuns.RunsNext` | src/modules/filesystem/file.cpp:520-860 | A run with one more operation meets no assertion exactly when the run does not and the operation, in the state the run leaves, does not; and it works on that state. |
| `FileRuns.Untouched` | src/modules/filesystem/file.cpp:520-860 | A byte of a file that no operation of a run touches is the same after it, whatever the run does to other bytes and files. |
| `FileRuns.LastWriteStays` | src/modules/filesystem/file.cpp:670-776 | A byte that was written reads as written after any further run that does not touch it. |
| `FileRuns.AlignedRunsGo` | src/modules/filesystem/file.cpp:693-701 | Every run in which writes start at a chunk and swaps have no zero piece meets no assertion, and every list keeps exactly ceil(size/4096) slots. |
| `FileRuns.ByteOfFile` | src/modules/filesystem/file.cpp:597-632 | Byte i of the flat file is byte i % 4096 of the chunk of the hash in slot i / 4096. |
| `FileRuns.SwapThenRead` | src/modules/filesystem/file.cpp:577-860 | On the real file: a read of the whole file after a swap returns the content swapped in. |
| `Files.File.Write` | src/modules/filesystem/file.cpp:670-776 | writeInner turns the padded bytes and size into those of the reference write, for every offset, length and sharing of chunks, and exchanges the old slots' references for the new slots'. |
| `Files.File.WriteSlots` | src/modules/filesystem/file.cpp:716-746 | The slot loop splices the whole buffer into the bytes of the range, and every replaced hash is paid for by the list of hashes to release. |
| `Files.File.WriteSlot` | src/modules/filesystem/file.cpp:720-742 | One round writes the part of the buffer that falls in slot i, or leaves the hash when the digest does not change. |
| `Files.File.Overwrite` | src/modules/filesystem/file.cpp:716-753 | The range is replaced in the list and the replaced references are given back, after which list and references agree again. |
| `Files.File.Extend` | src/modules/filesystem/file.cpp:689-704 | The list grows to the length the write asks for with zero chunks; the bytes before stay. |
| `Files.File.Grow` | src/modules/filesystem/file.cpp:700-704 | Growing adds claims on the zero hash, one for each slot added. |
| `Files.File.Truncate` | src/modules/filesystem/file.cpp:520-574 | truncateInner keeps or pads the bytes as the reference truncate does and releases exactly the slots cut off, so the assertions on what is expected to be deleted hold. |
| `Files.File.SwapContent` | src/modules/filesystem/file.cpp:822-860 | The new list is built with a reference a slot before the old list is released, so chunks the two share survive. |
| `Files.File.MakeList` | src/modules/filesystem/file.cpp:831-842 | The list holds the whole content, padded to a chunk, with one reference a slot. |
| `Files.File.WritePiece` | src/modules/filesystem/file.cpp:832-840 | One round: the next piece of the content, padded, becomes a hash with a reference. |
| `Files.File.Read` | src/modules/filesystem/file.cpp:577-637 | read returns the bytes of its range, of the length the reference model gives; the clamp on the range does not cut it. |
| `Files.File.ReadSlots` | src/modules/filesystem/file.cpp:623-637 | The slot loop of read copies exactly the bytes of the range it was given. |
| `Files.File.ReadSlot` | src/modules/filesystem/file.cpp:624-636 | One round copies the part of the range that falls in slot i, behind what was copied before. |
| `Files.File.RestHashes` | src/modules/filesystem/file.cpp:879-888 | Resting drops cached chunks only; every slot keeps its chunk and its count, and the assertion on a positive count holds. |
| `FlatFiles.AbortsExactly` | src/modules/filesystem/file.cpp:693-701 | The length assertion aborts exactly the aligned writes that stay within the chunks of a file whose list still has the extra slot of an earlier unaligned write. |
| `FlatFiles.UnalignedThenAlignedAborts` | src/modules/filesystem/file.cpp:693-701 | A concrete run that meets that assertion: one byte at offset 1 of an empty file, then one at offset 0. |
| `FlatFiles.WriteKeepsShape` | src/modules/filesystem/file.cpp:689-704 | ceil(size/4096) <= list length <= ceil(size/4096)+1 and a zero extra slot are kept by every write. |
| `FlatFiles.TruncateKeepsShape` | src/modules/filesystem/file.cpp:520-574 | ... and by every truncate. |
| `FlatFiles.SwapHasShape` | src/modules/filesystem/file.cpp:822-860 | ... and established by every swap. |
| `FlatFiles.WriteChangesItsRange` | src/modules/filesystem/file.cpp:670-776 | For every byte of every list, whatever the file was: inside the range the buffer, outside it what was there, and zero where the list grew. |
| `FlatFiles.WrittenSize` | src/modules/filesystem/file.cpp:689-704 | The size after a write is the end of the written range if that lies beyond the old size, and the old size otherwise; the list has a slot for every 4096 bytes begun, and one more for an unaligned offset. |
| `FlatFiles.TruncateKeepsBytes` | src/modules/filesystem/file.cpp:536-571 | A truncate to n makes the size n and the list ceil(n/4096) slots; each byte below both lengths stays and each byte beyond the old list is zero. |
| `FlatFiles.SwapLeavesContent` | src/modules/filesystem/file.cpp:828-848 | A swap leaves the size of the content and, from offset 0 on, the content unchanged, with zeros behind it to the end of the chunk. |
| `FlatFiles.SwapAbortsExactly` | src/modules/filesystem/file.cpp:834-838 | The assertion that a swapped chunk is new fails if and only if some 4096-byte piece of the content, or its last part, is all zeros. |
| `FlatFiles.ReadStaysInList` | src/modules/filesystem/file.cpp:601-622 | The slots a read asks for always exist, so its clamp never fires and it never passes the size. |
| `FlatFiles.ReadIsComplete` | src/modules/filesystem/file.cpp:609-612 | A read is complete exactly when its offset is aligned, or its range ends in a chunk its own length counts; otherwise it is a short, correct prefix. |
| `FlatFiles.ReadStopsAt` | src/modules/filesystem/file.cpp:597-637 | A read ends at the end of what was asked for or of the file, or at the end of the chunk that is as many chunks on from the first as its length takes, less than a chunk before; it gets to the end when that chunk reaches it. This fixes its length. |
| `FlatFiles.NothingBehindEnd` | src/modules/filesystem/file.cpp:602-604 | A read from the end of the file on returns nothing. |
| `FlatFiles.ShortRead` | src/modules/filesystem/file.cpp:609-612 | A concrete short read: 4096 bytes from offset 1 of a 5000-byte file give 4095. |
| `FlatFiles.ReadAfterWrite` | src/modules/filesystem/file.cpp:577-776 | An aligned read of a range just written returns what was written. |
| `FlatFiles.ReadAfterSwap` | src/modules/filesystem/file.cpp:822-848 | A read of the whole file after a swap is complete and returns the content. |
| `FlatFiles.RegrowExposesTail` | src/modules/filesystem/file.cpp:520-574 | Shrinking and growing again shows the old bytes up to the end of the last kept chunk, and zeros from there on. |
| `Store.Storage.constructor` | src/modules/filesystem/fs.cpp:162-233 | The store of a new file system satisfies the invariant: one zero hash with count 1 in block {1,0}, everything else available. |
| `Store.Storage.NewHash` | src/modules/filesystem/storage.cpp:292-316 | newHash returns the hash object of a chunk: the one in the index, or a new one in a block nobody held, with the chunk and record put in its bucket. |
| `Store.Storage.CreateHash` | src/modules/filesystem/storage.cpp:305-315 | A new hash gets a fresh block from the allocator, never one in use and never index 0. |
| `Store.Storage.IncRefCnt` | src/modules/filesystem/hash.cpp:50-57 | A reference can always be taken: the assertion against reviving a deleted hash holds. |
| `Store.Storage.DecRefCnt` | src/modules/filesystem/hash.cpp:59-78 | Dropping a reference deletes the hash exactly when it was the last one; then it leaves the index and its block goes back. |
| `Store.Storage.Delete` | src/modules/filesystem/hash.cpp:62-74 | Deleting removes the hash from the index, clears its block and posts it; nothing else changes. |
| `Store.Storage.Data` | src/modules/filesystem/hash.cpp:86-93 | The chunk of a live hash is found in its cache or in its block, and is the chunk it names. |
| `Store.Storage.Rest` | src/modules/filesystem/hash.cpp:94-102 | Clearing the cached chunk loses nothing. |
| `Store.Storage.CompareChunk` | src/modules/filesystem/hash.cpp:80-84 | Comparing the stored chunk with a new one of the same digest finds them equal. |
| `Store.Storage.ReadHash` | src/modules/filesystem/hash.cpp:115-119 | Reading through a hash reads its chunk. |
| `Store.Storage.WriteAndClaim` | src/modules/filesystem/hash.cpp:121-133 | hash::write returns null when the digest stays the same, and otherwise a hash of the spliced chunk with one more reference. |
| `Store.Storage.FindOrCreate` | src/modules/filesystem/storage.cpp:292-316 | The same chunk always yields the same live hash object. |
| `Store.Storage.Release` | src/modules/filesystem/file.cpp:540-553 | Releasing a list of hashes gives back one reference each, even when the list repeats a hash, and deletes exactly those whose last reference it was. |
| `StoreState.IncrementKeepsInv` | src/modules/filesystem/hash.cpp:50-57 | Taking a reference keeps the store invariant (counts, index, blocks). |
| `StoreState.DecrementKeepsInv` | src/modules/filesystem/hash.cpp:59-78 | Dropping one keeps it too, whether or not the hash dies. |
| `StoreState.CreateKeepsInv` | src/modules/filesystem/storage.cpp:305-315 | Adding a hash for a chunk the index does not hold keeps it. |
| `StoreState.CacheKeepsInv` | src/modules/filesystem/hash.cpp:86-93 | Caching a loaded chunk keeps it. |
| `StoreState.RestKeepsInv` | src/modules/filesystem/hash.cpp:94-102 | Dropping a cached chunk keeps it. |
| `StoreState.InitialInv` | src/modules/filesystem/fs.cpp:162-233 | It holds for a new file system. |
| `Dedup.CountsAreSlots` | src/modules/filesystem/hash.cpp:50-78 | In every state between operations a live hash's count is the number of list slots over all files that hold it, plus one for the zero hash; a hash without slots is not live, and no live hash is marked deleted. |
| `Dedup.SlotIsLive` | src/modules/filesystem/hash.cpp:62-74 | The hash in any slot of any file is in the digest index under its digest, holds an outstanding block, and its chunk is in the cache or in that block. |
| `Dedup.SharedIffEqual` | src/modules/filesystem/storage.cpp:292-316 | Two slots share a hash object if and only if their 4096-byte contents are equal. |
| `Dedup.OneBlockPerChunk` | src/modules/filesystem/storage.cpp:292-316 | The number of data blocks handed out equals the number of distinct chunk contents over all files, counting the zero chunk. |
| `Dedup.IndexIsBijection` | src/modules/filesystem/storage.cpp:292-316 | In every state between operations the digest index maps its digests one to one onto the live hashes. |
| `Dedup.OutstandingIsLive` | src/modules/filesystem/storage.cpp:306-314 | The outstanding data indices are exactly those of the live hashes, a different one for each, that of the zero hash being the reserved {1,0}. |
| `Dedup.SlotsCounted` | src/modules/filesystem/file.cpp:720-757 | The claims of all lists on a hash are as many as the slots that hold it. |
| `Accounting.BucketAccounting.constructor` | src/modules/filesystem/bucketaccounting.cpp:18-29 | The allocator starts with all 2560 nodes free and every index of the given buckets outstanding. |
| `Accounting.BucketAccounting.Fetch` | src/modules/filesystem/bucketaccounting.cpp:203-224 | fetch always ends, hands out an index that is not in use and not 0, and changes the outstanding set by exactly that index; buckets are created exactly when the pool is empty, and then they are the ten least unused numbers from the hint on. |
| `Accounting.BucketAccounting.Post` | src/modules/filesystem/bucketaccounting.cpp:180-198 | post takes back exactly one index within two rounds; it fails if and only if no node is free and no bucket is wholly free, and then more than ten buckets are in use. It releases exactly the wholly free buckets, only when no node is free, and never the bucket of the index it takes. |
| `Accounting.BucketAccounting.FetchNode` | src/modules/filesystem/bucketaccounting.cpp:205-215 | The taken node loses its index and moves to the free list. |
| `Accounting.BucketAccounting.CreateBuckets` | src/modules/filesystem/bucketaccounting.cpp:100-120 | Ten new buckets fill the empty pool, numbered by the ten least unused numbers from the hint on; what is outstanding does not change. |
| `Accounting.BucketAccounting.AddBuckets` | src/modules/filesystem/bucketaccounting.cpp:102-114 | The loops take exactly the ten least unused numbers from the hint on, and write all their 2560 indices into the records. |
| `Accounting.BucketAccounting.SkipUsedHints` | src/modules/filesystem/bucketaccounting.cpp:103-105 | The search ends on the least unused number from the hint on. |
| `Accounting.BucketAccounting.CleanRecords` | src/modules/filesystem/bucketaccounting.cpp:93-98 | The in-place relinking leaves one acyclic list of all nodes in order. |
| `Accounting.BucketAccounting.ReleaseBuckets` | src/modules/filesystem/bucketaccounting.cpp:122-168 | Only buckets nobody holds an index of are released, entries of other buckets stay available, a free node is left; it fails exactly when there is no such bucket. |
| `Accounting.BucketAccounting.FindReleasable` | src/modules/filesystem/bucketaccounting.cpp:128-140 | The counting loops find exactly the buckets with all 256 indices in the pool. |
| `Accounting.BucketAccounting.CountPerBucket` | src/modules/filesystem/bucketaccounting.cpp:129-132 | The map counts the records of each bucket. |
| `Accounting.BucketAccounting.ClearReleased` | src/modules/filesystem/bucketaccounting.cpp:144-151 | The records split into cleared ones and kept ones, and nothing of a kept bucket is lost. |
| `Accounting.BucketAccounting.Rebuild` | src/modules/filesystem/bucketaccounting.cpp:152-159 | The two rebuild loops put the cleared nodes on the free list and the others on the available list. |
| `AccountingRuns.Session` | src/modules/filesystem/bucketaccounting.cpp:100-224 | From any state of the allocator, any list of fetches and posts is answered call by call, and each state (buckets in use, hint, indices held) follows from the one before as the calls say: a fetch hands out an index nobody holds and creates exactly the ten least unused numbers from the hint on when the pool is empty; a post gives exactly its index back and releases exactly the wholly free buckets when no node is free. The run ends early exactly at a post that finds neither, with more than ten buckets in use. |
| `AccountingRuns.HeldIsLogged` | src/modules/filesystem/bucketaccounting.cpp:180-224 | In every such run the indices held are those held before, those fetched, less those posted. |
| `AccountingRuns.NoNumberTwice` | src/modules/filesystem/bucketaccounting.cpp:100-120 | In every such run no bucket number is created by two calls. |
| `AccountingRuns.OnlyFirstNumbersReturn` | src/modules/filesystem/bucketaccounting.cpp:100-168 | A number that was in use at some time and is created later was in use before the first call. |
| `AccountingRuns.HeldNumberStays` | src/modules/filesystem/bucketaccounting.cpp:122-168 | As long as an index held before the first call is not posted, its bucket stays in use, so its number is not created. |
| `AccountingRuns.CreatedExactly` | src/modules/filesystem/bucketaccounting.cpp:100-120 | A call creates a number if and only if it is a fetch from an empty pool and the number is, from the hint on, among the ten least that are not in use. |
| `AccountingRuns.ReturnsExactly` | src/modules/filesystem/bucketaccounting.cpp:100-120 | The same about one creation: not below the hint, and fewer than ten unused numbers from the hint on before it. |
| `AccountingRuns.RoomOfState` | src/modules/filesystem/bucketaccounting.cpp:122-141 | What post looks at, a free node and a bucket with all its indices in the pool, in terms of the indices held. |
| `AccountingRuns.FromMkfs` | src/modules/filesystem/fs.cpp:162-233 | Every such run on a new file system in which the block of the zero chunk is not posted creates no number that was in use at any time before. |
| `AccountingRuns.MountTenFree` | src/modules/filesystem/storage.cpp:160-182 | A concrete mount: buckets 2 to 12, of which only the last holds anything. |
| `AccountingRuns.NumbersReturn` | src/modules/filesystem/bucketaccounting.cpp:100-224 | A concrete run from there of one post and two fetches: bucket 2 is in use, released by the post, and created again by the second fetch. |
| `Accounting.FragmentedMount` | src/modules/filesystem/storage.cpp:160-182 | A concrete mount that is valid, holds an index, and leaves no room for it: eleven buckets with slot 0 held in each and no free node. |
| `Accounting.LoadBuckets` | src/modules/filesystem/storage.cpp:160-182 | After loadBuckets the outstanding indices are those of the listed buckets that were not posted. |
| `Pool.TenBucketsSuffice` | src/modules/filesystem/bucketaccounting.cpp:135-141 | 2560 distinct pooled indices in at most ten buckets leave some bucket wholly free, so the fragmentation assertion holds there. |
| `Pool.PoolBound` | src/modules/filesystem/bucketaccounting.cpp:135-141 | A pool in which no bucket is full holds at most 255 indices a bucket. |
| `Pool.ReleasableBuckets` | src/modules/filesystem/bucketaccounting.cpp:134-140 | A count of 256 in the records means exactly that the whole bucket is in the pool. |
| `Pool.ReleasedPool` | src/modules/filesystem/bucketaccounting.cpp:144-164 | Releasing keeps the pool invariant and the outstanding indices. |
| `Pool.TakeOne` | src/modules/filesystem/bucketaccounting.cpp:205-215 | Taking a node keeps the pool invariant and makes exactly its index outstanding. |
| `Pool.GiveOne` | src/modules/filesystem/bucketaccounting.cpp:182-192 | Putting an outstanding index on a free node keeps the invariant and makes exactly it available. |
| `Pool.RefilledPool` | src/modules/filesystem/bucketaccounting.cpp:100-120 | The pool after createBuckets satisfies the invariant. |
| `Pool.FragmentedPoolHasNoFullBucket` | src/modules/filesystem/bucketaccounting.cpp:134-141 | Eleven buckets can fill the pool without any of them being full. |
| `NodeLists.NodeList.Insert` | src/modules/filesystem/bucketaccounting.cpp:32-40 | Inserting relinks in place and puts the node at the head. |
| `NodeLists.NodeList.Take` | src/modules/filesystem/bucketaccounting.cpp:43-52 | Taking removes the head and leaves the rest linked. |
| `NodeLists.NodeList.Steal` | src/modules/filesystem/bucketaccounting.cpp:54-63 | Stealing empties the list and returns its chain. |
| `MetaStore.MetaBuckets.Rest` | src/modules/filesystem/file.cpp:864-930 | rest writes the list over the inode and its content chain, extending the chain where it ends and leaving what lies behind the list; nothing else of this or another file changes, and the chain stays linked. |
| `MetaStore.MetaBuckets.RestOne` | src/modules/filesystem/file.cpp:889-912 | One round of its loop: a slot, and a block for the next one as soon as a block is full. |
| `MetaStore.MetaBuckets.LoadHashes` | src/modules/filesystem/file.cpp:432-483 | loadHashes returns ceil(size/4096) entries: the slots up to the first empty one or the end of the chain, the zero hash for what is unknown or missing, and takes one reference on the zero hash for each of those. |
| `InodeContents.LoadAfterRest` | src/modules/filesystem/file.cpp:432-483 | Loading after resting gives the first ceil(size/4096) entries of the rested list, however long the chain was and whatever was left in it, and takes no reference on the zero hash. |
| `InodeContents.EntryPlace` | src/modules/filesystem/file.cpp:889-912 | Entry k of the list lies at index k of the inode, or at index (k-495)%508 of block 1+(k-495)/508 of the file. |
| `InodeContents.RestDone` | src/modules/filesystem/file.cpp:879-918 | The loop ends with the list in the first slots, the old contents behind it, and exactly the blocks it needs or had. |
| `InodeContents.RestNothing` | src/modules/filesystem/file.cpp:917-920 | An empty list clears the first slot only. |
| `InodeContents.LoadedIsList` | src/modules/filesystem/file.cpp:445-482 | Loading a slot sequence that starts with a list of known, non-zero entries gives that list. |
| `InodeContents.LoadedEntry` | src/modules/filesystem/file.cpp:446-482 | Entry by entry for any slots: a slot before the first empty one that names a known hash loads as that hash, everything else as the zero hash of block 256, with one reference each. |
| `MetaStore.MetaBuckets.constructor` | src/modules/filesystem/fs.cpp:183-204 | The metadata store of a new file system: the root inode in {1,0} with its metadata block in {1,1}, all other blocks available. |
| `MetaStore.RootTextLoads` | src/modules/filesystem/fs.cpp:183-204 | The metadata of the new root load as the string mkfs stored if and only if that is empty or does not end in NUL; its list is empty and its size 0. |
| `MetaStore.MetaBuckets.NewFile` | src/modules/filesystem/fs.cpp:288-304 | A new inode sits in a block nobody held, with empty chains. |
| `MetaStore.MetaBuckets.FirstCtd` | src/modules/filesystem/fs.cpp:398-417 | createCtd returns the first block of a chain, or links a fetched, zeroed one; every chain stays acyclic and on blocks of its own. |
| `MetaStore.MetaBuckets.NextCtd` | src/modules/filesystem/fs.cpp:419-428 | The same for the block behind a continuation block. |
| `InodeState.ChainsDistinct` | src/modules/filesystem/file.cpp:86-120 | In every state no block is listed twice, on one chain or on two, and none is an inode. |
| `InodeState.AppendKeepsLinked` | src/modules/filesystem/fs.cpp:398-428 | Linking a fetched block at the end of a chain keeps all chains well linked. |
| `InodeState.AppendView` | src/modules/filesystem/fs.cpp:398-428 | It adds one empty block to what one inode keeps and changes nothing any other inode keeps. |
| `InodeState.SlotsChanged` | src/modules/filesystem/file.cpp:889-894 | Writing a slot of a continuation block changes that block of that file only. |
| `InodeState.CharsChanged` | src/modules/filesystem/fs.cpp:145-159 | Writing a character changes that metadata block of that inode only. |
| `InodeState.DeleteKeepsLinked` | src/modules/filesystem/fs.cpp:689-705 | Removing an inode and its blocks leaves the other chains well linked. |
| `InodeState.DeleteView` | src/modules/filesystem/fs.cpp:689-705 | It changes nothing any other inode keeps. |
| `MetaStore.MetaBuckets.WalkChain` | src/modules/filesystem/file.cpp:93-104 | A chain walk ends and returns the blocks of the chain in order. |
| `MetaStore.MetaBuckets.UsedInodes` | src/modules/filesystem/file.cpp:86-120 | The returned blocks are the inode, its content chain and its metadata chain, all different. |
| `MetaStore.MetaBuckets.Delete` | src/modules/filesystem/fs.cpp:689-705 | Deleting gives every block the file had fetched back exactly once and nothing else: the outstanding blocks are again exactly those of the remaining files. |
| `MetaStore.MetaBuckets.StoreMetaData` | src/modules/filesystem/fs.cpp:145-159 | Storing a string writes it over the metadata chain, extended where it ends, and leaves what lies behind it; the contents of all files stay. |
| `MetaStore.MetaBuckets.LoadMetaData` | src/modules/filesystem/fs.cpp:120-143 | Loading returns the characters of the whole chain without trailing NULs, cut or filled with spaces to the recorded size. |
| `InodeContents.LoadAfterStore` | src/modules/filesystem/fs.cpp:120-159 | A stored string comes back if and only if it is empty, or does not end in NUL, or a character other than NUL was left behind it on the chain. |
| `InodeContents.TrailingNulLost` | src/modules/filesystem/fs.cpp:120-159 | The string of one NUL on a new chain comes back as a space. |
| `MetaStore.MetaBuckets.StoreMetadata` | src/modules/filesystem/fs.cpp:368-396 | The loop of storeMetadata ends, and when it does, loading the root's metadata gives the listing of the buckets in use at that moment. |
| `MetaSession.Session` | src/modules/filesystem/fs.cpp:288-304 | After any run of creating, resting, resizing, storing metadata and deleting on a fresh file system, the inode of every file left holds the list rested last, the string stored last and its size, and reading a file back gives them; only the allocator can end the run, with more than ten buckets in use. |
| `MetaSession.AfterOne` | src/modules/filesystem/fs.cpp:288-304 | What the run remembers, field by field: a create appends an empty file; resting, resizing and storing set the list, the size or the string of one live file and nothing else; a delete ends it. |
| `MetaSession.LastStays` | src/modules/filesystem/fs.cpp:288-304 | What was rested, sized or stored last stays until it is set again; a file is left exactly until it is deleted, and does not come back. |
| `JournalHistory.Recover` | src/modules/filesystem/journal.cpp:125-215 | After any interleaving of any threads' steps, stopped anywhere, tryReplay over the files in any order dispatches a record if and only if some step of the run began to add it, with exactly its fields, name and data under the number drawn, that thread then wrote it, and no later step closed it; each once, by ascending number. |
| `JournalHistory.UnfinishedExactly` | src/modules/filesystem/journal.cpp:17-36 | The same about the state of any run: an entry is unfinished if and only if a thread began to add it, wrote it, and no later step closes it. |
| `JournalHistory.AddingExactly` | src/modules/filesystem/journal.cpp:117-123 | A thread is in the middle of adding an entry exactly when it began to, with these fields, and has not written since. |
| `JournalHistory.LaterIsGreater` | src/modules/filesystem/journal.cpp:96-106 | An addition that begins later draws a greater number, so the replay follows the order in which additions began. |
| `JournalHistory.CloseEntryEffect` | src/modules/filesystem/journal.cpp:34-36 | Closing an entry takes it out of the unfinished ones and keeps all others. |
| `JournalHistory.AddCompletes` | src/modules/filesystem/journal.cpp:92-123 | From every reachable state an idle thread completes an addition in at most five steps: the entry becomes unfinished under the next number, its record goes behind those of the file the thread made last if an entry lives there and it has no more than 1024 records, and into a new file otherwise; nothing else changes. |
| `JournalHistory.LastCloseRemovesFile` | src/modules/filesystem/journal.cpp:34-61 | Closing and letting go of the only entry of a file that no thread has got hold of removes that file and no other. |
| `JournalMachine.CrashLeavesUnfinished` | src/modules/filesystem/journal.cpp:92-123 | In every reachable state the records of all files, taken in any order, leave open exactly the unclosed entries. |
| `JournalMachine.RunKeepsInv` | src/modules/filesystem/journal.cpp:34-123 | The invariant behind it holds in every reachable state: every record is in the file of its entry, numbers are used once. |
| `JournalMachine.StepKeepsInv` | src/modules/filesystem/journal.cpp:34-123 | Every single step of every thread keeps it. |
| `JournalMachine.FilesWhileHeld` | src/modules/filesystem/journal.cpp:55-114 | A file exists as long as a thread or a live entry holds it, has open records exactly while it has unclosed entries, and never exceeds 2050 records. |
| `JournalMachine.FilesOfLiveEntries` | src/modules/filesystem/journal.cpp:47-61 | When nobody is in the middle of adding, closing or removing, the files are exactly those of the live entries. |
| `JournalMachine.ReplayUnique` | src/modules/filesystem/journal.cpp:158-209 | There is one such replay only: it does not depend on the order the files are listed in. |
| `JournalReplay.TryReplay` | src/modules/filesystem/journal.cpp:125-215 | tryReplay over files that hold any lists of records dispatches exactly the entries those lists leave open, ascending. |
| `JournalReplay.ReadFile` | src/modules/filesystem/journal.cpp:129-154 | Parsing the encrypted stream of a file gives back all its entries, names and data; a file whose header was never flushed gives none. |
| `JournalReplay.ReadRecord` | src/modules/filesystem/journal.cpp:137-151 | One turn finds the entry and as many further bytes as it announces. |
| `JournalReplay.Collect` | src/modules/filesystem/journal.cpp:159-183 | The items point at the bytes of exactly the entries no later record closes. |
| `JournalReplay.Dispatch` | src/modules/filesystem/journal.cpp:190-209 | The sorted items are decoded to the entry, name and data that were written. |
| `JournalReplay.JournalFile.constructor` | src/modules/filesystem/journal.cpp:47-53 | A new file holds no records; its header is still buffered. |
| `JournalReplay.JournalFile.WriteEntry` | src/modules/filesystem/journal.cpp:63-82 | Writing appends exactly the messages of one record and flushes. |
| `JournalReplay.JournalFile.DeleteEntry` | src/modules/filesystem/journal.cpp:84-87 | Closing appends a close record for the id. |
| `JournalReplay.JournalFile.ContentOnDisk` | src/modules/filesystem/journal.cpp:47-82 | What is on disk at any moment is what the replay expects, including the file whose header is not written yet. |
| `JournalReplay.RecordAt` | src/modules/filesystem/journal.cpp:136-153 | Record i starts where the images of the earlier ones end. |
| `JournalReplay.OneRecord` | src/modules/filesystem/journal.cpp:63-82 | The bytes of a file of one record: header, entry as message 0, name and then data as message 1 if there is any. |
| `JournalRecords.EntryRoundTrip` | src/modules/filesystem/journal.h:34-48 | The 64 bytes of an entry read back as its fields, whatever follows them. |
| `JournalRecords.EntryLayout` | src/modules/filesystem/journal.h:18-43 | The bytes at which each field of an entry lies, and the code of each kind. |
| `JournalRecords.PackRoundTrip` | src/modules/filesystem/journal.h:34-48 | Little-endian fields laid out one after the other read back. |
| `JournalRecords.OpenConcat` | src/modules/filesystem/journal.cpp:159-183 | Records about different ids do not disturb each other, so files may be read in any order. |
| `Buckets.Run` | src/modules/filesystem/bucket.cpp:179-321 | After any sequence of puts, clears, stores with and without dropping the cache, and reads, a slot has the record put there last, and a slot with a record returns the chunk put there last. |
| `Buckets.LastPutIs` | src/modules/filesystem/bucket.cpp:193-207 | What was put last is the record and chunk of the last put about the slot, no record and 4096 zeros after a clear, nothing if there was neither. |
| `Buckets.Bucket.Store` | src/modules/filesystem/bucket.cpp:218-321 | store writes the two files if any record is left, may drop the chunks, and changes nothing a reader sees; it fails if and only if something counts as changed while the records are not in memory. |
| `Buckets.Bucket.WriteFiles` | src/modules/filesystem/bucket.cpp:240-318 | The files afterwards hold the chunks and records in memory, or are untouched when no record is left. |
| `Buckets.Bucket.LoadChunks` | src/modules/filesystem/bucket.cpp:87-136 | Loading shows the chunks of the file, or zeroed ones. |
| `Buckets.Bucket.LoadHashes` | src/modules/filesystem/bucket.cpp:47-84 | Loading shows the records with a positive count. |
| `Buckets.Bucket.GetChunk` | src/modules/filesystem/bucket.cpp:179-184 | The chunk of a slot with a record is the last one put there. |
| `Buckets.Bucket.GetHash` | src/modules/filesystem/bucket.cpp:186-191 | The record of a slot is the last one put there. |
| `Buckets.Bucket.PutHashAndChunk` | src/modules/filesystem/bucket.cpp:193-203 | A put changes its slot only. |
| `Buckets.Bucket.ClearHashAndChunk` | src/modules/filesystem/bucket.cpp:205-207 | A clear empties its slot only. |
| `Buckets.Bucket.HashChanged` | src/modules/filesystem/bucket.h:76 | A changed count only marks the bucket. |
| `Buckets.Bucket.Recount` | src/modules/filesystem/hash.cpp:50-57 | A hash object's new count shows in its slot and marks the bucket. |
| `Buckets.Bucket.Close` | src/modules/filesystem/bucket.cpp:142-146 | The destructor leaves everything in the files when a record is left. |
| `Buckets.Reopen` | src/modules/filesystem/bucket.cpp:137-146 | Destroying a bucket object and opening its files again shows the same slots if and only if a record was left to store or the files hold none. |
| `Buckets.StoreAndClear` | src/modules/filesystem/bucket.cpp:193-207 | A concrete run: a record is stored and then cleared; the bucket holds nothing, its files hold the record. |
| `Buckets.ClearedComesBack` | src/modules/filesystem/bucket.cpp:300-318 | Closing a bucket that holds nothing and opening its files again shows in every slot the record the files held. |
| `Buckets.Bucket.AddChange` | src/modules/filesystem/bucket.cpp:323-338 | A journal entry joins the log; a full log of 1024 is stored first, which needs the records in memory. |
| `Buckets.SlotRoundTrip` | src/modules/filesystem/bucket.cpp:26-30 | A serialized record reads back, and one without references as an empty slot. |
| `Buckets.SlotLayout` | src/modules/filesystem/bucket.cpp:26-33 | The 48 bytes of a record: index and count as eight bytes from the low one up, then the digest; an empty slot has zeros and the empty digest. |
| `Buckets.FormatChunks` | src/modules/filesystem/bucket.cpp:255-269 | The buffer is the chunks one after the other. |
| `Buckets.FormatSlots` | src/modules/filesystem/bucket.cpp:284-299 | The buffer is the records one after the other, and the count says whether any slot holds one. |
| `Buckets.ParseChunks` | src/modules/filesystem/bucket.cpp:111-124 | The loop cuts the buffer into the same chunks. |
| `Buckets.ParseSlots` | src/modules/filesystem/bucket.cpp:68-79 | The loop cuts the buffer into the same records. |
| `DataBucketRuns.Run` | src/modules/filesystem/storage.cpp:132-158 | Any legal sequence of the chunk store's calls (put, recount, drop with the releases of its post) on real bucket objects, with storeAllData and loads anywhere in between: no store aborts, nothing waits to be stored without its records in memory, every load of a live block returns its chunk, and every live block has its records in memory, its record and the chunk put last. |
| `DataBucketRuns.CallsOf` | src/modules/filesystem/storage.cpp:132-158 | The calls among the turns of a run: those of its parts, in order; stores and loads are none. |
| `DataBucketRuns.Do` | src/modules/filesystem/hash.cpp:50-78 | One such call keeps all that; a count changes only while the records of its bucket are in memory. |
| `DataBucketRuns.DropBlock` | src/modules/filesystem/hash.cpp:62-75 | Clearing the block, removing what the post released and the mark at the end leave every other live block as it was, and the bucket marked still has its records. |
| `DataBucketRuns.RemoveAll` | src/modules/filesystem/bucketaccounting.cpp:161-164 | Removing released buckets neither aborts nor touches a live block. |
| `DataBucketRuns.MarkAndStore` | src/modules/filesystem/hash.cpp:75 | Whenever the mark comes, the next storeAllData goes on if and only if the bucket still has its records in memory. |
| `BucketRaces.DeleteTwo` | src/modules/filesystem/hash.cpp:59-78 | Two threads delete a hash each, the second between the post and the mark of the first: both posts find room exactly when the allocator is not stuck before them, and the next storeAllData aborts if and only if the first post left no node free and its bucket without anything held. |
| `BucketRaces.PostBlock` | src/modules/filesystem/bucketaccounting.cpp:180-198 | post over the indices held: when it finds room, what it takes back and which buckets it releases. |
| `BucketRaces.RaceState` | src/modules/filesystem/storage.cpp:160-182 | A concrete state for that race: two blocks put, a mount with one node left, and no object in common. |
| `BucketRaces.RaceAborts` | src/modules/filesystem/hash.cpp:59-78 | In that state both posts find room and the abort condition holds. |
| `DataBucketRuns.PutShows` | src/modules/filesystem/storage.cpp:306-314 | A put or a clear of one block leaves the other live blocks as they were. |
| `DataBucketRuns.RecountShows` | src/modules/filesystem/hash.cpp:50-57 | A recount changes the count in one record and nothing else. |
| `DataBuckets.DataBuckets.GetBucket` | src/modules/filesystem/storage.cpp:137-150 | getBucket returns the bucket object of a number, the one in memory or a new one over its files; nothing else changes. |
| `DataBuckets.DataBuckets.RemoveBucket` | src/modules/filesystem/storage.cpp:132-135 | removeBucket drops one bucket object after its destructor stored it, and leaves all others alone. |
| `DataBuckets.DataBuckets.StoreAll` | src/modules/filesystem/storage.cpp:266-280 | storeAllData stores every data bucket and changes nothing a reader sees; it aborts if and only if some bucket has a change without its records in memory. |
| `DataBuckets.DataBuckets.PutBlock` | src/modules/filesystem/storage.cpp:306-311 | A put through getBucket changes one slot of one bucket. |
| `DataBuckets.DataBuckets.ReadBlock` | src/modules/filesystem/storage.cpp:152-154 | Loading a chunk through getBucket changes nothing and returns the chunk put last where there is a record. |
| `DataBuckets.DataBuckets.MarkBucket` | src/modules/filesystem/hash.cpp:75 | A mark through getBucket changes nothing but the bucket's need to be stored. |
| `StoredFiles.CallsMatchHashes` | src/modules/filesystem/hash.cpp:50-78 | In every state between operations the calls made so far are legal, and the blocks they leave live are the outstanding ones, with the digest, the chunk and, but for the zero hash, the count of the hash that owns them. |
| `StoredFiles.Replay` | src/modules/filesystem/storage.cpp:266-316 | The calls of any session of file operations, made to real bucket objects with storeAllData and loads in between: nothing aborts, every live hash has its record and chunk in its bucket, and every slot of every file reads its chunk from there. |
| `StoredFiles.Session` | src/modules/filesystem/storage.cpp:266-316 | A session from mkfs with storeAllData anywhere between the operations on files: the files are what the reference model makes of them, every call was made to the data buckets, all of them can be stored, and every live block shows its record and chunk. Only the allocator can end it, with more than ten buckets in use, or a count, index or digest that no longer fits its record. |
| `StoredFiles.FileOpsOf` | src/modules/filesystem/storage.cpp:266-316 | The file operations of a session: those of its parts, in order; a store is none. |
| `StoredFiles.ApplyStored` | src/modules/filesystem/storage.cpp:266-316 | One operation, or storeAllData, keeps all that and does to the files what the reference model says. |
| `StoredFiles.JoinedShows` | src/modules/filesystem/hash.cpp:50-78 | In every state between them each live hash has its digest, its chunk and, but for the zero hash, its count in its bucket. |
| `StoredFiles.Serve` | src/modules/filesystem/storage.cpp:305-315 | A list of legal calls is made to the buckets to its end exactly when every call fits its record. |
| `StoredLists.IndicesNameHashes` | src/modules/filesystem/file.cpp:877-897 | What rest writes for a file are held blocks, none of them the empty mark 0, each naming the hash object it was written for. |
| `StoredLists.RestAndLoad` | src/modules/filesystem/file.cpp:432-483 | A file put to rest in the metadata store and loaded again gets the same hash objects in the same order, as many as its size calls for, and takes no reference on the zero hash. |
| `MutexCalls.Exclusion` | src/modules/util/shared_recursive_mutex.cpp:15-98 | In every state any number of threads can reach by single atomic accesses: a thread between its calls is the owner if and only if its locks and successful try_locks outnumber its unlocks over the run; then count is by how many, no other thread between its calls has locked, nobody holds the mutex shared, and shared_locks is the number of shared holds. |
| `MutexCalls.DepthIsCalls` | src/modules/util/shared_recursive_mutex.cpp:15-90 | Between its calls a thread's depth is its locks and successful try_locks less its unlocks, counted over the steps of the run, and its shared holds are its shared locks less its shared unlocks. |
| `Mutex.StepInv` | src/modules/util/shared_recursive_mutex.cpp:15-90 | Every atomic access of every thread keeps the invariant. |
| `MutexCalls.OnlyOutermostUnlockReleases` | src/modules/util/shared_recursive_mutex.cpp:50-60 | In every run a thread stops being the owner only by its own step, and only when it has unlocked as often as it locked. |
| `MutexCalls.FlagClearedBySetter` | src/modules/util/shared_recursive_mutex.cpp:40-90 | The flag is cleared only by the thread that set it, and never while a thread is named as the owner or has a lock. |
| `MutexCalls.LockAlone` | src/modules/util/shared_recursive_mutex.cpp:15-30 | A lock by a thread left alone returns exactly when it is the owner, or the flag is clear and nobody shares; then flag, owner and count are its own, one lock deeper. |
| `MutexCalls.TryLockAlone` | src/modules/util/shared_recursive_mutex.cpp:31-49 | try_lock locks in exactly these cases, with the same result, and changes nothing in the others. |
| `MutexCalls.UnlockAlone` | src/modules/util/shared_recursive_mutex.cpp:50-60 | unlock takes back one lock; only the last one clears owner, count and flag. |
| `MutexCalls.ShareAlone` | src/modules/util/shared_recursive_mutex.cpp:62-74 | lock_shared adds one shared hold when the flag is clear and leaves it clear; otherwise it waits. |
| `MutexCalls.TryShareAlone` | src/modules/util/shared_recursive_mutex.cpp:76-84 | try_lock_shared does the same, and changes nothing when the flag is set. |
| `MutexCalls.UnshareAlone` | src/modules/util/shared_recursive_mutex.cpp:86-90 | unlock_shared takes back one shared hold. |
| `Mutex.Progress` | src/modules/util/shared_recursive_mutex.cpp:15-90 | Every reachable state that is not doomed and has a waiting thread has an enabled step that is not a spin and does not doom it. |
| `Mutex.HelpDecreases` | src/modules/util/shared_recursive_mutex.cpp:15-90 | Every such step brings all threads together nearer to having finished. |
| `Mutex.Drains` | src/modules/util/shared_recursive_mutex.cpp:15-90 | So a bounded number of them brings every waiting thread through, from every state that is not doomed. |
| `Mutex.WaitersGetThrough` | src/modules/util/shared_recursive_mutex.cpp:15-90 | All waiting threads can get through if and only if no shared holder waits to lock, and none asks to share again while another waits behind the flag for the shared holds; otherwise some thread waits in every continuation. |
| `Mutex.DoomedStays` | src/modules/util/shared_recursive_mutex.cpp:15-90 | No step of any thread leads out of such a state. |
| `Mutex.UpgradeDeadlocks` | src/modules/util/shared_recursive_mutex.h:13-19 | From every reachable state: a thread that locks while it holds the mutex shared waits for ever, whatever it and the others do. |
| `Mutex.SharingAgainDeadlocks` | src/modules/util/shared_recursive_mutex.h:13-19 | A concrete run of two threads that deadlocks by sharing twice. |
| `Mutex.DisciplineSuffices` | src/modules/util/shared_recursive_mutex.h:13-19 | The discipline the header asks for, that no shared holder waits, is enough. |
| `Json.PrintAndParse` | src/modules/script/JSON.cpp:347-494 | An object of numbers comes back from printing and parsing if and only if every name is free of quotes, backslashes and byte 0xFF and every number is within 31 bits; under such names parsing throws otherwise. |
| `Json.OnlyPlainReturn` | src/modules/script/JSON.cpp:347-494 | A printed object whose text can pay for itself, name by name and number by number, has only names that need no escape. |
| `Json.PrintedWeighs` | src/modules/script/JSON.cpp:347-393 | The printed object has exactly the non-quote characters of its names and numbers, a colon each, the commas between and the braces. |
| `Json.Unserialize` | src/modules/script/JSON.cpp:396-494 | The name stack and the flags of the parser rebuild the object from the tokens of its printed form; and from any text it builds only objects the text can pay for: the braces, every name, every number, a colon each and the commas between. |
| `Json.Serialize` | src/modules/script/JSON.cpp:347-393 | The text is the entries in the order the map is walked in, each once, without the last comma. |
| `Json.EntryExamples` | src/modules/script/JSON.cpp:347-393 | Two entries byte for byte: a number, and a list of two. |
| `Json.SpellObject` | src/modules/script/JSON.cpp:347-393 | The printed object is what its token list spells. |
| `Json.ParseDecimal` | src/modules/script/JSON.cpp:450-452 | Reading a printed number gives it back. |
| `Lexing.Tokenize` | src/modules/script/lexer.cpp:157-327 | The tokenizer comes to its end on every text, gives every token list of JSON punctuation, plain strings and numbers back from the text it spells, and makes of any text only tokens whose names and marks the text holds, but for a string that the end of the text cuts off. |
| `Lexing.LexOne` | src/modules/script/lexer.cpp:174-325 | One round of its loop reads exactly the next token. |
| `Lexing.LexString` | src/modules/script/lexer.cpp:178-212 | The string loop computes what the scan function says, escapes and end of text included. |
| `Lexing.EscapesRead` | src/modules/script/lexer.cpp:184-206 | What each character behind a backslash reads as. |
| `Lexing.ScanWeighs` | src/modules/script/lexer.cpp:178-212 | A string that ends before the text does has no more non-quote characters than what it was read from, and as many only when nothing in it was escaped. |
| `Lexing.QuotedName` | src/modules/script/lexer.cpp:178-212 | A quoted name with text behind it reads back as itself, up to its own closing quote, if and only if it is free of quotes, backslashes and byte 0xFF. |
| `Lexing.LexNumber` | src/modules/script/lexer.cpp:249-259 | A number token is the longest run of digits and points. |
| `Lexing.BackslashLost` | src/modules/script/lexer.cpp:184-206 | The two-character name of a backslash and b comes back as one backspace. |

## Left out

- SHA-256 is a function parameter assumed injective on chunks (`CollisionFree`); so the branch of newHash that reports a collision and returns the existing hash anyway is modelled but never taken.
- Encryption is a pair of function parameters with decrypt(encrypt(x)) = x (`Opens`, `Decrypts`); keys, nonces and key files are not modelled, nor is the size check on decrypted files, which holds by that assumption.
- Interleavings inside the allocator, the chunk store, a file, a bucket or the metadata store: their operations are atomic here, but for `BucketRaces.DeleteTwo`. Only the mutex and the journal are modelled step by step. The compare-and-swap retries of the node lists therefore always succeed at once.
- Accounting.BucketAccounting.CreateBuckets: the notification of a created bucket does nothing in the original and is left out; that of a released bucket is modelled in the metadata store, as the set of opened buckets, and in the data buckets, as part of the call whose post releases it.
- Integer widths: bucket indices, sizes and the journal counter are unbounded, except where the journal and bucket records bound them to 32 and 64 bits. A journal counter that wraps around at 2^32 is not modelled; entries stop being added there.
- Remounting: reference counts of data blocks after a second mount, and what stale records of a bucket number that returns do then, are not modelled; the chain of an inode, metadata strings and journal replay are, since they do not depend on counts.
- Files.File.RestHashes: only what happens to the hashes; where rest writes their indices is `MetaStore.MetaBuckets.Rest`, a separate model that takes the list of indices as given. The trigger that rests a file after many writes is left out.
- Files.File.Write: change logs attached to buckets, timestamps and the maximum file size check are left out; growth and shrinking follow the code, not the zero-filling POSIX asks of truncate.
- FileSystem.FileSystem.UnlinkFile: the last name goes and nothing has the file open; its inode blocks are `MetaStore.MetaBuckets.Delete`.
- FileSystem.FileSystem.CreateFile: only contents; names, permissions, modes, links and times of files are not modelled.
- InodeState.CharsChanged: a continuation block has its slots and its characters side by side, where the original overlays them; no block is on a chain of both kinds, so this makes no difference.
- MetaStore.MetaBuckets.LoadHashes: a missing hash is an index outside the set of known ones.
- MetaStore.MetaBuckets.StoreMetaData: the recorded size is set after the first block of the chain is there, not before; the opened buckets are tracked where blocks are created, stored or deleted, not where they are only read.
- MetaStore.MetaBuckets.StoreMetadata: the listing of the buckets is a function parameter below the size limit the code asserts and not ending in NUL; other properties of the root stay as they are.
- MetaStore.MetaBuckets.Delete: truncating the deleted file's list belongs to `Files.File.Truncate`; the block itself is dropped, not overwritten.
- Buckets.Bucket.Store: the load and store filters, which nothing sets, migration and deletion of buckets, and the encrypted size are left out; file names and failing file operations too.
- Buckets.Bucket.AddChange: a change log is a sequence of entries; what releasing them does is part of the journal model. The data buckets together keep no logs, so the store that a full log starts is only described here.
- DataBucketRuns.Run: starts without files, as after mkfs, and takes counts, indices and digests that fit their record. The count of the zero hash, which is pinned and never marks its bucket, is the one it was put with.
- StoredFiles.Session: the calls of one operation are made to the buckets when it ends; the store itself reads its blocks from a map, which `StoredFiles.JoinedShows` ties to the buckets. `StoredFiles.Replay` allows storeAllData between any two calls.
- JournalMachine.StepKeepsInv: records are written whole. Two threads writing the same file at the same moment, and records torn by a crash, are not modelled; nor is an unknown entry type, which no writer produces.
- JournalHistory.Recover: what dispatching an entry does to the file system is not modelled, and neither is the removal of the replayed files.
- Lexing.LexWord: says only how far it reads, because no directory text contains a word; the keywords other than null are one kind of token, since the parser rejects them all. Likewise `Lexing.SkipLine`, `Lexing.SkipBlock` and `Lexing.LexOperator` on texts with comments or other operators.
- Lexing.Tokenize: what it makes of texts that no token list spells is not stated, beyond that it ends and that the text pays for the tokens. Comments attached to tokens, and offsets, are left out.
- Json.Unserialize: nested objects, strings and fractions as values end in `NotModelled`, which counts as not coming back; lists of numbers are parsed as the code does but the round trip is stated for single numbers, as directories hold them.
- Json.Serialize: the map is walked in any order, which covers the sorted one; pretty printing is left out.
- MutexCalls.Exclusion: the assertion that lock_shared is not called by the owner, and that callers unlock what they locked, are conditions on the calls.
- Namespace operations, path caches, permissions, statistics, FUSE callbacks, configuration, services and the console: they would add easy members or, as path caches under renames, promise nothing that holds in general.
- src/modules/util/atomic_shared_ptr.h and protected_unordered_map.h: plain fields and maps.
