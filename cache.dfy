/**
 * The cache engine itself (`cache_t` and the operations on it). The block
 * table is a fixed array of MAX_CACHE_BLOCKS slots of which the first
 * `numBlocks` are resident; the operations scan, shift and update it in
 * place, exactly as the C code does. Each method is proved to take the
 * system to the state the corresponding function of CacheSpec describes,
 * and to keep the invariant.
 */
module CacheEngine {
  import opened CacheTypes
  import opened BackingStore
  import opened CacheSpec
  import CacheLaws

  /** `memcpy(dst, src, BLOCK_SIZE)`. */
  method CopyBlock(src: Block, dst: array<byte>)
    requires |src| == BLOCK_SIZE <= dst.Length
    modifies dst
    ensures dst[..BLOCK_SIZE] == src
    ensures dst[BLOCK_SIZE..] == old(dst[BLOCK_SIZE..])
  {
    forall j | 0 <= j < BLOCK_SIZE {
      dst[j] := src[j];
    }
  }

  /** The removal loop of `evict_block`: slots `k+1 .. n-1` move down by one. */
  method ShiftDown(a: array<Entry>, k: nat, n: nat)
    requires k < n <= a.Length
    modifies a
    ensures a[..n - 1] == RemoveAt(old(a[..n]), k)
    ensures a[n..] == old(a[n..])
  {
    ghost var es := a[..n];
    var i := k;
    while i < n - 1
      invariant k <= i <= n - 1
      invariant forall j :: 0 <= j < k ==> a[j] == es[j]
      invariant forall j :: k <= j < i ==> a[j] == es[j + 1]
      invariant forall j :: i <= j < n ==> a[j] == es[j]
      invariant a[n..] == old(a[n..])
    {
      a[i] := a[i + 1];
      i := i + 1;
    }
    assert a[..n - 1] == RemoveAt(es, k);
  }

  /**
   * The loop of `cache_flush` over slots `[0, n)`: each dirty entry is
   * written and, if the write succeeded, marked clean; the loop stops at the
   * first failing write, whose slot is returned as `stop` (n on success).
   */
  method FlushSlots(a: array<Entry>, n: nat, disk: Disk) returns (ok: bool, stop: nat)
    requires n <= a.Length
    modifies a, disk
    ensures FlushStop(old(a[..n]), stop) && ok == (stop == n)
    ensures forall j :: 0 <= j < stop ==> a[j] == old(a[j]).(dirty := false)
    ensures forall j :: stop <= j < n ==> a[j] == old(a[j])
    ensures disk.contents == Persist(old(disk.contents), old(a[..n])[..stop])
    ensures disk.log == old(disk.log) + WriteLog(old(a[..n])[..stop])
                        + if stop < n then [DiskWrite(old(a[stop]).id, old(a[stop]).data)] else []
  {
    ghost var es := a[..n];
    var i := 0;
    while i < n
      invariant 0 <= i <= n
      invariant forall j :: 0 <= j < i ==> a[j] == es[j].(dirty := false)
      invariant forall j :: i <= j < n ==> a[j] == es[j]
      invariant disk.contents == Persist(old(disk.contents), es[..i])
      invariant disk.log == old(disk.log) + WriteLog(es[..i])
    {
      CacheLaws.FlushPrefixStep(old(disk.contents), es, i);
      if a[i].dirty {
        var written := disk.Write(a[i].id, a[i].data);
        if !written {
          return false, i;
        }
        a[i] := a[i].(dirty := false);
      }
      i := i + 1;
    }
    return true, n;
  }

  class Cache {
    /** The backing store this cache reads and writes. */
    const disk: Disk
    /** `blocks[MAX_CACHE_BLOCKS]`; slots `[0, numBlocks)` are resident. */
    const blocks: array<Entry>
    var numBlocks: nat
    var accessCounter: nat
    var hits: nat
    var misses: nat

    /** The cache-local state: the resident entries and the counters. */
    function State(): CacheState
      reads this, blocks
      requires numBlocks <= blocks.Length
    {
      CacheState(blocks[..numBlocks], accessCounter, hits, misses)
    }

    /** The cache together with its backing store. */
    ghost function Snapshot(): Sys
      reads this, blocks, disk
      requires numBlocks <= blocks.Length
    {
      Sys(State(), disk.contents, disk.log)
    }

    ghost predicate Valid()
      reads this, blocks, disk
    {
      blocks.Length == MAX_CACHE_BLOCKS && numBlocks <= MAX_CACHE_BLOCKS && Inv(Snapshot())
    }

    /** `cache_init`: an empty cache over `disk`, counters zero. */
    constructor (disk: Disk)
      requires DiskSized(disk.contents)
      ensures Valid() && fresh(blocks) && this.disk == disk
      ensures State() == Empty()
    {
      this.disk := disk;
      blocks := new Entry[MAX_CACHE_BLOCKS](_ => Entry(0, [], 0, false));
      numBlocks, accessCounter, hits, misses := 0, 0, 0, 0;
    }

    /** `blocks[num_blocks++] = block`: append one entry to the resident slots. */
    method Push(e: Entry)
      requires blocks.Length == MAX_CACHE_BLOCKS && numBlocks < MAX_CACHE_BLOCKS
      modifies this`numBlocks, blocks
      ensures numBlocks == old(numBlocks) + 1
      ensures blocks[..numBlocks] == old(blocks[..numBlocks]) + [e]
    {
      blocks[numBlocks] := e;
      numBlocks := numBlocks + 1;
      assert blocks[..numBlocks] == old(blocks[..numBlocks]) + [e];
    }

    /** `find_block`: the first resident slot holding `id`, if any. */
    method FindBlock(id: u64) returns (r: Option<nat>)
      requires Valid()
      ensures r == IndexOf(State().entries, id)
    {
      var i := 0;
      while i < numBlocks
        invariant 0 <= i <= numBlocks
        invariant forall j :: 0 <= j < i ==> blocks[j].id != id
      {
        if blocks[i].id == id {
          return Some(i);
        }
        i := i + 1;
      }
      return None;
    }

    /** The search loop of `evict_block`: the first slot of minimal `lastAccess`. */
    method FindLru() returns (k: nat)
      requires Valid() && numBlocks > 0
      ensures k == LruIndex(State().entries)
    {
      k := 0;
      var minAccess := blocks[0].lastAccess;
      var i := 1;
      while i < numBlocks
        invariant 1 <= i <= numBlocks
        invariant k == LruIndex(blocks[..i]) && minAccess == blocks[k].lastAccess
      {
        assert blocks[..i + 1][..i] == blocks[..i];
        if blocks[i].lastAccess < minAccess {
          minAccess := blocks[i].lastAccess;
          k := i;
        }
        i := i + 1;
      }
      assert blocks[..numBlocks] == State().entries;
    }

    /**
     * `evict_block`: write the least recently used entry back if dirty,
     * ignoring the outcome (`writeOk` records it for the specification only),
     * and shift the later entries down over it.
     */
    method EvictBlock() returns (victim: Option<Entry>, ghost writeOk: bool)
      requires Valid()
      modifies this, blocks, disk
      ensures Valid()
      ensures old(numBlocks) == 0 ==> victim == None && Snapshot() == old(Snapshot())
      ensures old(numBlocks) > 0 ==>
        && victim == Some(old(State()).entries[LruIndex(old(State()).entries)])
        && Snapshot() == EvictStep(old(Snapshot()), writeOk)
    {
      if numBlocks == 0 {
        return None, true;
      }
      ghost var s0 := Snapshot();
      ghost var es := s0.cache.entries;
      var k := FindLru();
      var v := blocks[k];
      writeOk := true;
      if v.dirty {
        var ok := disk.Write(v.id, v.data);
        writeOk := ok;
      }
      ShiftDown(blocks, k, numBlocks);
      numBlocks := numBlocks - 1;
      assert blocks[..numBlocks] == RemoveAt(es, k);
      CacheLaws.EvictPreservesInv(s0, writeOk);
      victim := Some(v);
    }

    /** The guard both miss branches share: evict when the cache is full. */
    method MakeSpace() returns (ghost writeOk: bool)
      requires Valid()
      modifies this, blocks, disk
      ensures Valid() && Snapshot() == MakeRoom(old(Snapshot()), writeOk)
      ensures numBlocks < MAX_CACHE_BLOCKS
    {
      writeOk := true;
      if numBlocks >= MAX_CACHE_BLOCKS {
        var victim;
        victim, writeOk := EvictBlock();
      }
    }

    /**
     * `cache_read` into `buffer`. `writeOk` and `readOk` record what the
     * backing store answered, for the specification only.
     */
    method Read(id: u64, buffer: array?<byte>) returns (status: int, ghost writeOk: bool, ghost readOk: bool)
      requires Valid()
      requires buffer != null ==> buffer.Length >= BLOCK_SIZE
      modifies this, blocks, disk, buffer
      ensures Valid() && IsStatus(status)
      ensures buffer == null ==> status == CACHE_ERROR && Snapshot() == old(Snapshot())
      ensures buffer != null ==>
        var r := ReadStep(old(Snapshot()), id, writeOk, readOk);
        && Snapshot() == r.sys && status == r.status
        && (r.data.Some? ==> buffer[..BLOCK_SIZE] == r.data.value)
        && (r.data.None? ==> buffer[..] == old(buffer[..]))
        && buffer[BLOCK_SIZE..] == old(buffer[BLOCK_SIZE..])
    {
      writeOk, readOk := true, true;
      if buffer == null {
        return CACHE_ERROR, writeOk, readOk;
      }
      ghost var s0 := Snapshot();
      var found := FindBlock(id);
      if found.Some? {
        var data := ReadHit(id, found.value, writeOk, readOk);
        CopyBlock(data, buffer);
        return CACHE_SUCCESS, writeOk, readOk;
      }
      var fetched;
      status, fetched, writeOk, readOk := ReadMiss(id);
      if fetched.Some? {
        CopyBlock(fetched.value, buffer);
      }
    }

    /** The hit branch of `cache_read`: count the hit and stamp the entry; `data` is what the caller copies out. */
    method ReadHit(id: u64, i: nat, ghost writeOk: bool, ghost readOk: bool) returns (data: Block)
      requires Valid() && IndexOf(State().entries, id) == Some(i)
      modifies this`accessCounter, this`hits, blocks
      ensures Valid()
      ensures var r := ReadStep(old(Snapshot()), id, writeOk, readOk);
        Snapshot() == r.sys && r.status == CACHE_SUCCESS && r.data == Some(data)
    {
      ghost var s0 := Snapshot();
      data := blocks[i].data;
      accessCounter := accessCounter + 1;
      blocks[i] := blocks[i].(lastAccess := accessCounter);
      hits := hits + 1;
      ReadHitDone(s0, id, i, writeOk, readOk);
    }

    /** A miss is counted before anything else happens. */
    method CountMiss()
      requires Valid()
      modifies this`misses
      ensures Valid() && Snapshot() == old(Snapshot()).(cache := old(Snapshot()).cache.(misses := old(misses) + 1))
    {
      misses := misses + 1;
    }

    /**
     * The miss branch of `cache_read`: count the miss, evict if full, read
     * the block from the backing store and keep it as a clean entry;
     * `fetched` is what the caller copies out.
     */
    method ReadMiss(id: u64) returns (status: int, fetched: Option<Block>, ghost writeOk: bool, ghost readOk: bool)
      requires Valid() && IndexOf(State().entries, id) == None
      modifies this, blocks, disk
      ensures Valid()
      ensures var r := ReadStep(old(Snapshot()), id, writeOk, readOk);
        Snapshot() == r.sys && status == r.status && fetched == r.data
    {
      ghost var s0 := Snapshot();
      CountMiss();
      ghost var counted := Snapshot();
      assert counted == s0.(cache := s0.cache.(misses := s0.cache.misses + 1));
      writeOk := MakeSpace();
      assert Snapshot() == MakeRoom(counted, writeOk);
      status, fetched, readOk := Fetch(id, s0, writeOk);
    }

    /** The rest of a miss once there is room: read the block and keep it as a clean entry. */
    method Fetch(id: u64, ghost s0: Sys, ghost writeOk: bool) returns (status: int, fetched: Option<Block>, ghost readOk: bool)
      requires Valid() && numBlocks < MAX_CACHE_BLOCKS
      requires Inv(s0) && IndexOf(s0.cache.entries, id) == None
      requires Snapshot() == MakeRoom(s0.(cache := s0.cache.(misses := s0.cache.misses + 1)), writeOk)
      modifies this, blocks, disk
      ensures Valid()
      ensures var r := ReadStep(s0, id, writeOk, readOk);
        Snapshot() == r.sys && status == r.status && fetched == r.data
    {
      ghost var s1 := Snapshot();
      var ok, data := disk.Read(id);
      readOk := ok;
      if !ok {
        ReadFailDone(s0, s1, id, writeOk);
        return CACHE_ERROR, None, readOk;
      }
      accessCounter := accessCounter + 1;
      Push(Entry(id, data, accessCounter, false));
      ReadMissDone(s0, s1, id, data, writeOk);
      return CACHE_SUCCESS, Some(data), readOk;
    }

    /** The state the hit branch of `cache_read` leaves is the one ReadStep describes. */
    lemma ReadHitDone(s0: Sys, id: u64, i: nat, writeOk: bool, readOk: bool)
      requires blocks.Length == MAX_CACHE_BLOCKS && numBlocks <= MAX_CACHE_BLOCKS
      requires Inv(s0) && IndexOf(s0.cache.entries, id) == Some(i)
      requires |s0.cache.entries| == numBlocks
      requires forall j :: 0 <= j < numBlocks && j != i ==> blocks[j] == s0.cache.entries[j]
      requires blocks[i] == s0.cache.entries[i].(lastAccess := accessCounter)
      requires accessCounter == s0.cache.accessCounter + 1 && hits == s0.cache.hits + 1 && misses == s0.cache.misses
      requires disk.contents == s0.disk && disk.log == s0.log
      ensures var r := ReadStep(s0, id, writeOk, readOk);
        Snapshot() == r.sys && r.status == CACHE_SUCCESS && r.data == Some(s0.cache.entries[i].data)
      ensures Valid()
    {
      CacheLaws.ReadPreservesInv(s0, id, writeOk, readOk);
      assert blocks[..numBlocks] == ReadStep(s0, id, writeOk, readOk).sys.cache.entries;
    }

    /** The state a successful miss of `cache_read` leaves is the one ReadStep describes. */
    lemma ReadMissDone(s0: Sys, s1: Sys, id: u64, data: Block, writeOk: bool)
      requires blocks.Length == MAX_CACHE_BLOCKS && numBlocks <= MAX_CACHE_BLOCKS
      requires Inv(s0) && IndexOf(s0.cache.entries, id) == None
      requires s1 == MakeRoom(s0.(cache := s0.cache.(misses := s0.cache.misses + 1)), writeOk)
      requires blocks[..numBlocks] == s1.cache.entries + [Entry(id, data, accessCounter, false)]
      requires accessCounter == s1.cache.accessCounter + 1 && hits == s1.cache.hits && misses == s1.cache.misses
      requires id in s1.disk && data == s1.disk[id]
      requires disk.contents == s1.disk && disk.log == s1.log + [DiskRead(id)]
      ensures var r := ReadStep(s0, id, writeOk, true);
        Snapshot() == r.sys && r.status == CACHE_SUCCESS && r.data == Some(data)
      ensures Valid()
    {
      var s3 := CacheLaws.ReadMissOk(s0, id, writeOk);
      assert Snapshot() == s3;
    }

    /** The state a failed miss of `cache_read` leaves is the one ReadStep describes. */
    lemma ReadFailDone(s0: Sys, s1: Sys, id: u64, writeOk: bool)
      requires blocks.Length == MAX_CACHE_BLOCKS && numBlocks <= MAX_CACHE_BLOCKS
      requires Inv(s0) && IndexOf(s0.cache.entries, id) == None
      requires s1 == MakeRoom(s0.(cache := s0.cache.(misses := s0.cache.misses + 1)), writeOk)
      requires State() == s1.cache
      requires disk.contents == s1.disk && disk.log == s1.log + [DiskRead(id)]
      ensures var r := ReadStep(s0, id, writeOk, false);
        Snapshot() == r.sys && r.status == CACHE_ERROR && r.data == None
      ensures Valid()
    {
      CacheLaws.ReadPreservesInv(s0, id, writeOk, false);
    }

    /**
     * `cache_write` from `buffer`: the first BLOCK_SIZE bytes become the
     * block's contents. `writeOk` records the eviction write-back's outcome.
     */
    method Write(id: u64, buffer: array?<byte>) returns (status: int, ghost writeOk: bool)
      requires Valid()
      requires buffer != null ==> buffer.Length >= BLOCK_SIZE
      modifies this, blocks, disk
      ensures Valid() && IsStatus(status)
      ensures buffer == null ==> status == CACHE_ERROR && Snapshot() == old(Snapshot())
      ensures buffer != null ==>
        status == CACHE_SUCCESS && Snapshot() == WriteStep(old(Snapshot()), id, buffer[..BLOCK_SIZE], writeOk)
    {
      writeOk := true;
      if buffer == null {
        return CACHE_ERROR, writeOk;
      }
      var data := buffer[..BLOCK_SIZE];
      var found := FindBlock(id);
      if found.Some? {
        WriteHit(id, found.value, data);
      } else {
        writeOk := WriteMiss(id, data);
      }
      return CACHE_SUCCESS, writeOk;
    }

    /** The hit branch of `cache_write`: overwrite slot `i`, stamp it and mark it dirty. */
    method WriteHit(id: u64, i: nat, data: Block)
      requires Valid() && IndexOf(State().entries, id) == Some(i) && |data| == BLOCK_SIZE
      modifies this`accessCounter, blocks
      ensures Valid() && Snapshot() == WriteStep(old(Snapshot()), id, data, true)
    {
      ghost var s0 := Snapshot();
      accessCounter := accessCounter + 1;
      blocks[i] := blocks[i].(data := data, lastAccess := accessCounter, dirty := true);
      WriteHitDone(s0, id, data, i, true);
    }

    /** The miss branch of `cache_write`: evict if full, then append a dirty entry. */
    method WriteMiss(id: u64, data: Block) returns (ghost writeOk: bool)
      requires Valid() && IndexOf(State().entries, id) == None && |data| == BLOCK_SIZE
      modifies this, blocks, disk
      ensures Valid() && Snapshot() == WriteStep(old(Snapshot()), id, data, writeOk)
    {
      ghost var s0 := Snapshot();
      writeOk := MakeSpace();
      ghost var s1 := Snapshot();
      accessCounter := accessCounter + 1;
      Push(Entry(id, data, accessCounter, true));
      WriteMissDone(s0, s1, id, data, writeOk);
    }

    /** The state the hit branch of `cache_write` leaves is the one WriteStep describes. */
    lemma WriteHitDone(s0: Sys, id: u64, data: Block, i: nat, writeOk: bool)
      requires blocks.Length == MAX_CACHE_BLOCKS && numBlocks <= MAX_CACHE_BLOCKS
      requires Inv(s0) && |data| == BLOCK_SIZE && IndexOf(s0.cache.entries, id) == Some(i)
      requires |s0.cache.entries| == numBlocks
      requires forall j :: 0 <= j < numBlocks && j != i ==> blocks[j] == s0.cache.entries[j]
      requires blocks[i] == s0.cache.entries[i].(data := data, lastAccess := accessCounter, dirty := true)
      requires accessCounter == s0.cache.accessCounter + 1 && hits == s0.cache.hits && misses == s0.cache.misses
      requires disk.contents == s0.disk && disk.log == s0.log
      ensures Snapshot() == WriteStep(s0, id, data, writeOk) && Valid()
    {
      CacheLaws.WritePreservesInv(s0, id, data, writeOk);
      assert blocks[..numBlocks] == WriteStep(s0, id, data, writeOk).cache.entries;
    }

    /** The state the miss branch of `cache_write` leaves is the one WriteStep describes. */
    lemma WriteMissDone(s0: Sys, s1: Sys, id: u64, data: Block, writeOk: bool)
      requires blocks.Length == MAX_CACHE_BLOCKS && 0 < numBlocks <= MAX_CACHE_BLOCKS
      requires Inv(s0) && |data| == BLOCK_SIZE && IndexOf(s0.cache.entries, id) == None
      requires s1 == MakeRoom(s0, writeOk) && |s1.cache.entries| == numBlocks - 1
      requires blocks[..numBlocks] == s1.cache.entries + [Entry(id, data, accessCounter, true)]
      requires accessCounter == s1.cache.accessCounter + 1 && hits == s1.cache.hits && misses == s1.cache.misses
      requires disk.contents == s1.disk && disk.log == s1.log
      ensures Snapshot() == WriteStep(s0, id, data, writeOk) && Valid()
    {
      CacheLaws.WritePreservesInv(s0, id, data, writeOk);
    }

    /**
     * `cache_flush`: write every dirty entry back, in slot order, clearing
     * its flag; stop at the first failing write. `stop` is where the loop
     * ended (numBlocks on success), for the specification only.
     */
    method Flush() returns (status: int, ghost stop: nat)
      requires Valid()
      modifies blocks, disk
      ensures Valid() && IsStatus(status)
      ensures FlushStop(old(State()).entries, stop)
      ensures var r := FlushStep(old(Snapshot()), stop); Snapshot() == r.sys && status == r.status
    {
      ghost var s0 := Snapshot();
      var ok;
      ok, stop := FlushSlots(blocks, numBlocks, disk);
      FlushDone(s0, stop);
      status := if ok then CACHE_SUCCESS else CACHE_ERROR;
    }

    /** The state a flush loop leaves when it ends at `stop` is the one FlushStep describes. */
    lemma FlushDone(s0: Sys, stop: nat)
      requires blocks.Length == MAX_CACHE_BLOCKS && numBlocks <= MAX_CACHE_BLOCKS
      requires Inv(s0) && FlushStop(s0.cache.entries, stop) && numBlocks == |s0.cache.entries|
      requires s0.cache.(entries := blocks[..numBlocks]) == State()
      requires forall j :: 0 <= j < stop ==> blocks[j] == s0.cache.entries[j].(dirty := false)
      requires forall j :: stop <= j < numBlocks ==> blocks[j] == s0.cache.entries[j]
      requires disk.contents == Persist(s0.disk, s0.cache.entries[..stop])
      requires disk.log == s0.log + WriteLog(s0.cache.entries[..stop])
                            + if stop < numBlocks then [DiskWrite(s0.cache.entries[stop].id, s0.cache.entries[stop].data)] else []
      ensures Snapshot() == FlushStep(s0, stop).sys && Valid()
    {
      var es := s0.cache.entries;
      CacheLaws.FlushedEntries(s0, stop);
      CacheLaws.FlushPreservesInv(s0, stop);
      assert stop == |es| ==> es[..stop] == es;
      assert blocks[..numBlocks] == FlushStep(s0, stop).sys.cache.entries;
    }

    /** `cache_stats`: the two counters, without changing anything. */
    method Stats() returns (h: nat, m: nat)
      ensures h == hits && m == misses
    {
      h, m := hits, misses;
    }

    /** The flush that `cache_destroy` performs before releasing memory; its result is dropped. */
    method Destroy() returns (ghost stop: nat)
      requires Valid()
      modifies blocks, disk
      ensures Valid() && FlushStop(old(State()).entries, stop)
      ensures Snapshot() == FlushStep(old(Snapshot()), stop).sys
    {
      var _, s := Flush();
      stop := s;
    }
  }
}
