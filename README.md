# Write-back LRU block cache, modelled and verified in Dafny

This project models the cache engine of the cache framework: `cache.c` and
the state declared in `cache.h`. The cache has a fixed table of
`MAX_CACHE_BLOCKS` (1024) slots. Each resident slot holds one block of
`BLOCK_SIZE` (4096) bytes, tagged with the following:

- its block id;
- a last-access stamp, taken from a monotonic access counter;
- a dirty flag.

The counters `hits` and `misses` record how reads were answered. The
operations are the following:

- **`cache_read`:**
  - A hit copies the block out and refreshes its stamp.
  - A miss evicts the least recently used block if the table is full, then reads the block from the backing store.
- **`cache_write`:** updates or admits the block and marks it dirty. Admitting a block may evict one.
- **`cache_flush`:** writes every dirty block back in slot order and stops at the first failing write.
- **`cache_stats`:** reports the two counters.
- **The flush done by `cache_destroy`.**

An eviction writes a dirty victim back before removing it, and it ignores
the outcome of that write.

The model has two layers.

- **`CacheSpec`** is a functional description.
  - `Sys` holds the cache state, the backing store as a map from block id to contents, and a log of attempted transfers.
  - Each operation is a function of the state before it and of what the backing store answered:
    - `writeOk` is the result of an eviction's write-back;
    - `readOk` is the result of the miss read;
    - `stop` is the slot whose flush write failed.
  - `Inv` is its invariant:
    - at most MAX_CACHE_BLOCKS entries;
    - every block BLOCK_SIZE bytes;
    - ids unique;
    - stamps distinct and not newer than the counter;
    - every clean block equal to the stored one.
- **`CacheEngine`** is the imperative engine, written as in C.
  - `class Cache` holds the `blocks` array and the fields of `cache_t`.
  - `find_block` and the LRU search are scanning loops.
  - Removal shifts the later slots down in place.
  - The flush loop clears dirty flags in place.
  - `BackingStore.Disk` is the backing store. Its reads and writes may fail at any time.
  - Every method is proved to take the system to the state the matching `CacheSpec` function describes, and to keep `Inv`.

`CacheLaws` proves that every operation keeps `Inv`. `CacheProps` proves the
laws of the cache:

- the victim is strictly the oldest entry;
- how hits and misses are counted, and which I/O each operation issues;
- read-after-write;
- what a client observes (`View`: the cached copy if resident, otherwise the
  stored one) across every operation;
- flush persistence and idempotence;
- two statements about whole runs of calls:
  - a block written once reads back as written, however many other blocks
    come and go;
  - least-recently-used replacement evicts a block once MAX_CACHE_BLOCKS
    other blocks have been written after it.

In `evict_block`, the result of the write-back of a dirty victim is
ignored (cache.c:84-86) and the victim is removed anyway, so a failed
write-back silently drops the victim's data. `EvictStep` follows the code.
`CacheProps.LostWriteBack` states the consequence: when that write fails,
a client no longer observes the data it last wrote to the victim.

## Model

| member | source | states |
|---|---|---|
| CacheTypes.Empty | cache.c:34-41 | the state after `cache_init` has no entries and all counters zero, and satisfies the structural invariant |
| CacheSpec.IndexOf | cache.c:58-65 | the result is the first resident index holding the id, or None exactly when no resident entry holds it |
| CacheSpec.Lookup | cache.c:58-65 | None exactly when the id is not resident; with unique ids, the entry holding the id |
| CacheSpec.LruIndex | cache.c:70-79 | the first index of minimal last-access stamp: not larger than any stamp, strictly smaller than every earlier one |
| CacheSpec.RemoveAt | cache.c:88-92 | removal of one slot: one entry fewer, earlier entries in place, later entries moved down by one in order |
| CacheSpec.MarkClean | cache.c:188 | the same number of entries, each clean and otherwise equal to the entry at its index |
| CacheSpec.EvictStep | cache.c:67-95 | `evict_block` on a non-empty cache: one entry fewer, counters unchanged, no stored block removed |
| CacheSpec.MakeRoom | cache.c:113-116 | evicting exactly when full: from at most MAX_CACHE_BLOCKS entries it leaves room for one more, never adds an entry, and changes no counter |
| CacheSpec.ReadStep | cache.c:97-146 | `cache_read`: the status is CACHE_SUCCESS or CACHE_ERROR, data is returned exactly on success, and the access counter never decreases |
| CacheSpec.WriteStep | cache.c:148-178 | `cache_write`: the access counter grows by exactly one, hits and misses are unchanged, and the cache is not empty afterwards |
| CacheSpec.Persist | cache.c:183-190 | writing the dirty entries back in slot order removes no stored block |
| CacheSpec.WriteLog | cache.c:183-190 | the writes a flush issues: at most one per entry, and only writes |
| CacheSpec.FlushStep | cache.c:180-193 | `cache_flush` stopping at `stop`: a status and no data, success exactly when it reached the end, the number of entries unchanged |
| CacheSpec.View | cache.c:58-65 | what a client observes for an id: nothing exactly when the id is neither resident nor stored |
| BackingStore.Disk.Read | cache.c:7-17 | logs one read of the id; on success the id is stored and the data is its stored contents; the store is unchanged |
| BackingStore.Disk.Write | cache.c:19-32 | logs one write; on success the block holds the data, on failure the store is unchanged |
| CacheEngine.CopyBlock | cache.c:104 | the first BLOCK_SIZE bytes of the destination equal the block, the rest is untouched |
| CacheEngine.ShiftDown | cache.c:88-92 | the first n-1 slots become RemoveAt of the first n, the slots past n are untouched |
| CacheEngine.FlushSlots | cache.c:183-192 | a cleared prefix up to the first failing dirty slot and an untouched rest; the store and log as if the dirty entries of the prefix were written in order, plus the failing write |
| CacheEngine.Cache.constructor | cache.c:34-41 | a fresh, empty cache with zero counters that satisfies the invariant |
| CacheEngine.Cache.Push | cache.c:140 | removes nothing: the resident entries become the old ones followed by the new entry |
| CacheEngine.Cache.FindBlock | cache.c:58-65 | returns exactly IndexOf of the resident entries, and changes nothing |
| CacheEngine.Cache.FindLru | cache.c:70-79 | returns exactly LruIndex of the resident entries, and changes nothing |
| CacheEngine.Cache.EvictBlock | cache.c:67-95 | on an empty cache returns None and changes nothing; otherwise returns the LRU victim and leaves the state EvictStep describes, keeping the invariant |
| CacheEngine.Cache.Read | cache.c:97-146 | a null buffer gives CACHE_ERROR with no state change; otherwise the state and status ReadStep describes, the block copied into the buffer on success, the buffer untouched on failure |
| CacheEngine.Cache.MakeSpace | cache.c:113-116 | evicting when full leaves the state MakeRoom describes, with room for one more entry |
| CacheEngine.Cache.ReadHit | cache.c:102-107 | the hit branch leaves the state ReadStep describes and returns the entry's data with success |
| CacheEngine.Cache.CountMiss | cache.c:111 | a miss increments `misses` and changes nothing else |
| CacheEngine.Cache.ReadMiss | cache.c:110-145 | the miss branch leaves the state, status and data ReadStep describes |
| CacheEngine.Cache.Fetch | cache.c:127-145 | once room is made, the read from the store and the admission of the block leave the state, status and data ReadStep describes |
| CacheEngine.Cache.ReadHitDone | cache.c:102-108 | the hit branch leaves the state ReadStep describes, with success and the entry's data |
| CacheEngine.Cache.ReadMissDone | cache.c:134-145 | a successful miss leaves the state ReadStep describes, with success and the data read |
| CacheEngine.Cache.ReadFailDone | cache.c:128-131 | a failed miss read leaves the state ReadStep describes (counted miss, victim gone), with CACHE_ERROR |
| CacheEngine.Cache.Write | cache.c:148-178 | a null buffer gives CACHE_ERROR with no state change; otherwise CACHE_SUCCESS and the state WriteStep describes for the buffer's first BLOCK_SIZE bytes |
| CacheEngine.Cache.WriteHit | cache.c:172-177 | overwriting a resident block leaves the state WriteStep describes |
| CacheEngine.Cache.WriteMiss | cache.c:153-177 | admitting a block, evicting first if full, leaves the state WriteStep describes |
| CacheEngine.Cache.WriteHitDone | cache.c:172-177 | the updated slot and counter are the state WriteStep describes for a hit |
| CacheEngine.Cache.WriteMissDone | cache.c:168-177 | the appended slot and counter are the state WriteStep describes for a miss |
| CacheEngine.Cache.Flush | cache.c:180-193 | the state and status FlushStep describes for the slot where the loop stopped, keeping the invariant |
| CacheEngine.Cache.FlushDone | cache.c:183-192 | the array and store left by the flush loop are the state FlushStep describes |
| CacheEngine.Cache.Stats | cache.c:195-200 | returns the hit and miss counters and changes nothing |
| CacheEngine.Cache.Destroy | cache.c:43-47 | the flush of `cache_destroy`: the state FlushStep describes, with the status dropped |
| CacheLaws.RemoveAtFrom | cache.c:89-91 | each entry left after a removal is the entry at the same or the next index |
| CacheLaws.RemoveAtKeeps | cache.c:88-92 | removal keeps block sizes, unique ids, distinct and bounded stamps, and leaves no entry with the victim's id |
| CacheLaws.EvictPreservesInv | cache.c:67-95 | an eviction keeps the invariant and shrinks the cache by exactly one entry |
| CacheLaws.MakeRoomInv | cache.c:113-116 | evicting when full keeps the invariant, leaves room for one more entry, keeps the counter, and keeps only entries that were resident |
| CacheLaws.AppendKeeps | cache.c:134-140 | appending a block of a non-resident id with a fresh stamp keeps the structural invariant |
| CacheLaws.ReplaceKeeps | cache.c:172-175 | restamping a slot with a fresh stamp and the same id keeps the structural invariant |
| CacheLaws.ReadPreservesInv | cache.c:97-146 | `cache_read` keeps the invariant, whatever the backing store answers |
| CacheLaws.AppendInv | cache.c:134-140 | appending a fresh entry that is dirty or matches the store keeps the invariant |
| CacheLaws.ReadMissPreservesInv | cache.c:110-145 | a read miss keeps the invariant, whether or not the read succeeds |
| CacheLaws.ReadMissOk | cache.c:134-145 | a successful miss appends a clean entry holding the stored data with the new stamp, returns that data, and keeps the invariant |
| CacheLaws.WritePreservesInv | cache.c:148-178 | `cache_write` keeps the invariant, whatever the eviction write-back answers |
| CacheLaws.PersistSized | cache.c:183-190 | writing blocks back keeps every stored block BLOCK_SIZE long |
| CacheLaws.PersistElsewhere | cache.c:183-190 | flushing leaves a block no dirty entry names as it was |
| CacheLaws.PersistHolds | cache.c:183-190 | with unique ids, each flushed dirty entry's data ends up on the store |
| CacheLaws.FlushedEntries | cache.c:183-190 | a flush clears the flags of the prefix, leaves the rest untouched, and changes no counter |
| CacheLaws.SameShape | cache.c:188 | changing only dirty flags keeps the structural invariant |
| CacheLaws.FlushPrefixStep | cache.c:184-189 | one more slot processed adds at most one write, that of the slot if it is dirty |
| CacheLaws.FlushPreservesInv | cache.c:180-193 | a flush keeps the invariant wherever it stops |
| CacheProps.IndexOfAt | cache.c:58-65 | the first index holding the id is what the lookup returns |
| CacheProps.IndexOfSameIds | cache.c:58-65 | the lookup depends only on the ids, position by position |
| CacheProps.IndexOfAppend | cache.c:140 | appending another id's block does not change a lookup |
| CacheProps.ViewResident | cache.c:102-104 | with unique ids, a client observes the data of a resident block |
| CacheProps.ViewAbsent | cache.c:127-128 | a client observes the stored data of a non-resident block |
| CacheProps.LruIsOldest | cache.c:70-79 | under distinct stamps the victim is strictly older than every other entry |
| CacheProps.EvictIo | cache.c:84-86 | an eviction logs exactly one write of the victim's id and data when it is dirty and none when it is clean; the store changes only when that write succeeds |
| CacheProps.EvictView | cache.c:81-92 | an eviction changes nothing a client observes, except that a dirty victim whose write-back failed reverts to the stored data |
| CacheProps.EvictVictimView | cache.c:84-92 | the victim's view after an eviction: the stored data when a dirty write-back failed, unchanged otherwise |
| CacheProps.EvictAbsentView | cache.c:88-92 | a non-resident id other than the victim keeps its view across an eviction |
| CacheProps.EvictResidentView | cache.c:88-92 | a resident entry other than the victim keeps its view across an eviction |
| CacheProps.MakeRoomView | cache.c:113-116 | making room keeps the view of every id when the write-back succeeds, and of every non-resident id in any case |
| CacheProps.LostWriteBack | cache.c:84-86 | a failed write-back of a dirty victim loses the data a client last wrote to it |
| CacheProps.ReadCounters | cache.c:102-111 | a hit increments `hits` and leaves `misses`; a miss increments `misses` and leaves `hits`; a hit does no I/O and keeps the number of entries |
| CacheProps.ReadHitStamp | cache.c:102-107 | a hit increments the access counter, stamps the entry with the new value, keeps its id, data and dirty flag, and leaves every other entry alone |
| CacheProps.ReadFailShrinks | cache.c:113-131 | a miss whose read fails returns CACHE_ERROR and no data, counts the miss, and leaves one entry fewer when the cache was full and as many entries otherwise |
| CacheProps.ReadMissIo | cache.c:110-128 | a miss issues exactly one read, of the requested id, after at most one write-back, which happens only when full |
| CacheProps.ReadHitView | cache.c:102-108 | a hit returns what a client observes and changes no view |
| CacheProps.ReadMissRoom | cache.c:110-116 | before the miss read, room is made, the id is still absent, and its stored data is unchanged |
| CacheProps.AppendView | cache.c:140 | appending a block of an absent id shows its data for that id and changes no other view |
| CacheProps.ReadMissOkView | cache.c:134-145 | a successful miss returns the stored data and, if any write-back succeeds, changes no view |
| CacheProps.ReadMissView | cache.c:110-145 | a miss succeeds exactly when the store delivers the block, returns what a client observes, and gives no data on failure |
| CacheProps.ReadMissFailView | cache.c:128-131 | a miss the store cannot serve returns CACHE_ERROR and no data, logs exactly the attempted read, and changes no view beyond making room |
| CacheProps.ReadReturnsView | cache.c:97-146 | `cache_read` succeeds exactly when the block is resident or delivered, returns what a client observes, and (write-backs succeeding) changes no view |
| CacheProps.WriteResident | cache.c:148-178 | after `cache_write` the block is resident, holds the data, is dirty, and is stamped with the incremented counter |
| CacheProps.WriteIo | cache.c:148-178 | `cache_write` reads nothing, leaves hits and misses alone, and issues at most one write, an eviction's when full on a miss |
| CacheProps.ReadAfterWrite | cache.c:102-108 | a read of a block just written is a hit returning the written data, with no I/O |
| CacheProps.WriteHitView | cache.c:172-177 | overwriting a resident block changes no other block's view |
| CacheProps.WriteMissShape | cache.c:153-177 | a write miss appends a dirty entry with the new stamp after making room |
| CacheProps.WriteMissView | cache.c:153-177 | admitting a block with write-backs succeeding changes no other block's view |
| CacheProps.WriteView | cache.c:148-178 | a client observes the data just written; other blocks keep their view when write-backs succeed |
| CacheProps.CleanNoWrites | cache.c:183-190 | with no dirty entries a flush issues no writes and leaves the store as it is |
| CacheProps.FlushEffect | cache.c:180-193 | a flush changes only dirty flags, cleared before `stop` and kept from it; no stamp or counter changes; success exactly when it reached the end |
| CacheProps.FlushSuccessPersists | cache.c:180-193 | after a successful flush every entry is clean and the store holds every entry's data |
| CacheProps.FlushIdempotent | cache.c:180-193 | after a successful flush a second one cannot fail, writes nothing and changes nothing |
| CacheProps.FlushView | cache.c:180-193 | wherever it stops, a flush changes nothing a client observes |
| CacheProps.RunKeepsView | cache.c:97-193 | in a run where every eviction write-back and every flush write succeeds, calls that do not write a block keep the invariant and that block's view |
| CacheProps.RoundTripThroughEviction | cache.c:97-178 | a block written and then left alone reads back as written after any run of reads, writes and flushes, when write-backs succeed |
| CacheProps.IdsBound | cache.h:21-22 | there are at most as many resident ids as entries |
| CacheProps.RemoveKeepsOlder | cache.c:88-92 | removal keeps the recency order between the remaining entries |
| CacheProps.RemoveKeepsId | cache.c:88-92 | every entry other than the victim stays resident |
| CacheProps.RemoveLruTracks | cache.c:70-92 | evicting while a block is resident removes that block or keeps every block touched after it |
| CacheProps.TouchTracks | cache.c:172-175 | restamping another resident block makes it newer than the tracked block |
| CacheProps.AppendTracks | cache.c:168-175 | an admitted block is newer than the tracked block |
| CacheProps.PutTracks | cache.c:148-178 | a write of another block keeps every block written since the tracked one resident and newer |
| CacheProps.PutMissTracks | cache.c:153-177 | the same for a write miss, through the eviction it may cause |
| CacheProps.MakeRoomTracks | cache.c:155-157 | making room while the tracked block stays resident keeps every block written since it resident and newer |
| CacheProps.PutsTrack | cache.c:148-178 | over a run of writes of other blocks, the tracked block is evicted, or every block written stays resident and newer |
| CacheProps.TrackedBound | cache.h:21-22 | while a block is resident, the blocks tracked as newer are fewer than the entries |
| CacheProps.EvictedAfterCapacity | cache.c:67-95 | once MAX_CACHE_BLOCKS distinct other blocks have been written after a block, that block is no longer resident |

## Left out

- The null cache handle (cache.c:44, 98, 149, 181, 196) is not modelled. The operations are methods of a `Cache` object, and a Dafny receiver is never null.
- The null `hits`/`misses` out-pointers of `cache_stats` (cache.c:196) are not modelled. `Stats` returns the two values instead.
- `malloc` failure (cache.c:118-124, 159-165) and every `free` (cache.c:50-55, 129-130) are left out. Memory management has no counterpart here, and entries are values stored in the slots.
- The victim's block structure is reused for the incoming block (cache.c:115, 135-140). This is not modelled, because entries are values and pointer identity is not tracked.
- The `if (!block) return CACHE_ERROR` after an eviction (cache.c:116, 157) cannot happen. A full cache has MAX_CACHE_BLOCKS > 0 entries, so an eviction always finds a victim.
- The file I/O of `disk_read` and `disk_write` (cache.c:7-32) is replaced by the abstract store `Disk`. A call may fail at any time, and it reads or replaces whole blocks.
- BackingStore.Disk.Read: a block that was never written cannot be read. In the source, a hole below the end of the file reads back as zero bytes.
- BackingStore.Disk.Write: a failed write leaves the store unchanged. In the source, a short `fwrite` can leave part of a block written.
- Integer widths are not modelled. The 64-bit wrap-around of `access_counter` (cache.h:23), of `hits`/`misses` (cache.h:24-25) and of the offset `block_id * BLOCK_SIZE` (cache.c:12, 27) is left out: the counters are unbounded naturals. Block ids are 64-bit values.
- CacheEngine.Cache.Read and CacheEngine.Cache.Write require a buffer of at least BLOCK_SIZE bytes. The C code copies BLOCK_SIZE bytes without checking.
- The log of attempted transfers is ghost. It exists only to state which I/O an operation performs.
- CacheProps.RoundTripThroughEviction: it holds only for runs whose write-backs succeed. When a write-back fails, the block can be lost; LostWriteBack states that case.
- CacheProps.EvictedAfterCapacity: it is stated for runs of writes whose write-backs succeed. The argument does not depend on those outcomes.
- The demonstration program `main.c` is not part of this model.
