/**
 * The laws the cache is meant to obey, stated on the functional description:
 * the choice of victim, the effect of each operation on the counters and on
 * the backing store, read-after-write, what a client observes (`View`)
 * across every operation, flush persistence and idempotence, and two
 * statements about whole runs of operations.
 */
module CacheProps {
  import opened CacheTypes
  import opened BackingStore
  import opened CacheSpec
  import opened CacheLaws

  // ----- lookup helpers -----

  /** The first index holding `id` is the one IndexOf reports. */
  lemma IndexOfAt(es: seq<Entry>, id: u64, k: nat)
    requires k < |es| && es[k].id == id
    requires forall j :: 0 <= j < k ==> es[j].id != id
    ensures IndexOf(es, id) == Some(k)
  {
    match IndexOf(es, id)
    case None =>
    case Some(m) =>
  }

  /** Lookup depends only on the ids, position by position. */
  lemma IndexOfSameIds(a: seq<Entry>, b: seq<Entry>, id: u64)
    requires |a| == |b| && forall j :: 0 <= j < |a| ==> a[j].id == b[j].id
    ensures IndexOf(a, id) == IndexOf(b, id)
  {
    match IndexOf(a, id)
    case None =>
    case Some(k) => IndexOfAt(b, id, k);
  }

  /** Appending an entry for another id does not change a lookup. */
  lemma IndexOfAppend(es: seq<Entry>, e: Entry, id: u64)
    requires e.id != id
    ensures IndexOf(es + [e], id) == IndexOf(es, id)
  {
    match IndexOf(es, id)
    case None =>
      assert forall j :: 0 <= j < |es + [e]| ==> (es + [e])[j].id != id by {
        forall j | 0 <= j < |es + [e]| ensures (es + [e])[j].id != id {
          if j < |es| { assert (es + [e])[j] == es[j]; }
        }
      }
    case Some(k) => IndexOfAt(es + [e], id, k);
  }

  /** With unique ids, the view of a resident id is its entry's data. */
  lemma ViewResident(s: Sys, id: u64, k: nat)
    requires UniqueIds(s.cache.entries) && k < |s.cache.entries| && s.cache.entries[k].id == id
    ensures View(s, id) == Some(s.cache.entries[k].data)
  {
  }

  /** The view of an id no entry holds is the backing store's. */
  lemma ViewAbsent(s: Sys, id: u64)
    requires forall j :: 0 <= j < |s.cache.entries| ==> s.cache.entries[j].id != id
    ensures View(s, id) == if id in s.disk then Some(s.disk[id]) else None
  {
  }

  // ----- evict_block -----

  /** Under the invariant the victim is strictly older than every other resident entry. */
  lemma LruIsOldest(es: seq<Entry>)
    requires |es| > 0 && DistinctStamps(es)
    ensures forall j :: 0 <= j < |es| && j != LruIndex(es) ==> es[LruIndex(es)].lastAccess < es[j].lastAccess
  {
  }

  /**
   * The I/O of an eviction: exactly one write of the victim's data when it
   * is dirty, none when it is clean; the store changes only if that write
   * succeeded.
   */
  lemma EvictIo(s: Sys, writeOk: bool)
    requires |s.cache.entries| > 0
    ensures var v := s.cache.entries[LruIndex(s.cache.entries)]; var r := EvictStep(s, writeOk);
      && r.log == s.log + (if v.dirty then [DiskWrite(v.id, v.data)] else [])
      && r.disk == (if v.dirty && writeOk then s.disk[v.id := v.data] else s.disk)
  {
  }

  /**
   * What a client observes after an eviction: nothing changes, except that
   * a dirty victim whose write-back failed reverts to what the backing store
   * held, since the source evicts it regardless.
   */
  lemma EvictView(s: Sys, writeOk: bool, id: u64)
    requires Inv(s) && |s.cache.entries| > 0
    ensures var v := s.cache.entries[LruIndex(s.cache.entries)];
      View(EvictStep(s, writeOk), id) ==
        if id == v.id && v.dirty && !writeOk then (if id in s.disk then Some(s.disk[id]) else None)
        else View(s, id)
  {
    var es := s.cache.entries;
    var k := LruIndex(es);
    if id == es[k].id {
      EvictVictimView(s, writeOk);
    } else {
      match IndexOf(es, id)
      case None => EvictAbsentView(s, writeOk, id);
      case Some(i) => EvictResidentView(s, writeOk, i);
    }
  }

  /** The victim's own view after an eviction. */
  lemma EvictVictimView(s: Sys, writeOk: bool)
    requires Inv(s) && |s.cache.entries| > 0
    ensures var v := s.cache.entries[LruIndex(s.cache.entries)];
      View(EvictStep(s, writeOk), v.id) ==
        if v.dirty && !writeOk then (if v.id in s.disk then Some(s.disk[v.id]) else None)
        else View(s, v.id)
  {
    var es := s.cache.entries;
    var k := LruIndex(es);
    RemoveAtKeeps(es, k, s.cache.accessCounter);
    ViewResident(s, es[k].id, k);
    ViewAbsent(EvictStep(s, writeOk), es[k].id);
  }

  /** An id no entry holds keeps its view when another entry is evicted. */
  lemma EvictAbsentView(s: Sys, writeOk: bool, id: u64)
    requires |s.cache.entries| > 0 && id != s.cache.entries[LruIndex(s.cache.entries)].id
    requires IndexOf(s.cache.entries, id).None?
    ensures View(EvictStep(s, writeOk), id) == View(s, id)
  {
    var es := s.cache.entries;
    var k := LruIndex(es);
    var s' := EvictStep(s, writeOk);
    var r := s'.cache.entries;
    forall j | 0 <= j < |r| ensures r[j].id != id {
      RemoveAtFrom(es, k, j);
    }
    ViewAbsent(s, id);
    ViewAbsent(s', id);
  }

  /** A resident entry other than the victim keeps its view across an eviction. */
  lemma EvictResidentView(s: Sys, writeOk: bool, i: nat)
    requires UniqueIds(s.cache.entries) && |s.cache.entries| > 0 && i < |s.cache.entries|
    requires s.cache.entries[i].id != s.cache.entries[LruIndex(s.cache.entries)].id
    ensures View(EvictStep(s, writeOk), s.cache.entries[i].id) == View(s, s.cache.entries[i].id)
  {
    var es := s.cache.entries;
    var k := LruIndex(es);
    var s' := EvictStep(s, writeOk);
    var r := s'.cache.entries;
    forall a, b | 0 <= a < b < |r| ensures r[a].id != r[b].id {
      RemoveAtFrom(es, k, a);
      RemoveAtFrom(es, k, b);
    }
    var i' := if i < k then i else i - 1;
    RemoveAtFrom(es, k, i');
    ViewResident(s, es[i].id, i);
    ViewResident(s', es[i].id, i');
  }

  /** Making room keeps the view of every id when the write-back succeeds, and of every id not resident in any case. */
  lemma MakeRoomView(s: Sys, writeOk: bool, id: u64)
    requires Inv(s)
    requires writeOk || IndexOf(s.cache.entries, id).None?
    ensures View(MakeRoom(s, writeOk), id) == View(s, id)
  {
    if |s.cache.entries| >= MAX_CACHE_BLOCKS {
      EvictView(s, writeOk, id);
    }
  }

  /**
   * A dirty block can be lost: when the write-back of a dirty victim fails
   * and the backing store held something else, a client no longer observes
   * the data it last wrote.
   */
  lemma LostWriteBack(s: Sys)
    requires Inv(s) && |s.cache.entries| > 0
    requires var v := s.cache.entries[LruIndex(s.cache.entries)];
      v.dirty && (v.id in s.disk ==> s.disk[v.id] != v.data)
    ensures var v := s.cache.entries[LruIndex(s.cache.entries)];
      View(s, v.id) == Some(v.data) && View(EvictStep(s, false), v.id) != Some(v.data)
  {
    var k := LruIndex(s.cache.entries);
    ViewResident(s, s.cache.entries[k].id, k);
    EvictView(s, false, s.cache.entries[k].id);
  }

  // ----- cache_read -----

  /**
   * Exactly one of hits and misses grows: hits on a resident id, misses
   * otherwise, whatever the backing store answers; a hit does no I/O.
   */
  lemma ReadCounters(s: Sys, id: u64, writeOk: bool, readOk: bool)
    ensures var c := ReadStep(s, id, writeOk, readOk).sys.cache;
      IndexOf(s.cache.entries, id).Some? ==> c.hits == s.cache.hits + 1 && c.misses == s.cache.misses
    ensures var c := ReadStep(s, id, writeOk, readOk).sys.cache;
      IndexOf(s.cache.entries, id).None? ==> c.hits == s.cache.hits && c.misses == s.cache.misses + 1
    ensures IndexOf(s.cache.entries, id).Some? ==>
      var r := ReadStep(s, id, writeOk, readOk);
      r.sys.disk == s.disk && r.sys.log == s.log && |r.sys.cache.entries| == |s.cache.entries|
  {
  }

  /**
   * A read hit stamps the entry with the incremented counter and changes
   * nothing else about it or about any other entry.
   */
  lemma ReadHitStamp(s: Sys, id: u64, writeOk: bool, readOk: bool, i: nat)
    requires IndexOf(s.cache.entries, id) == Some(i)
    ensures var es := s.cache.entries; var c := ReadStep(s, id, writeOk, readOk).sys.cache;
      && c.accessCounter == s.cache.accessCounter + 1
      && |c.entries| == |es|
      && c.entries[i].lastAccess == c.accessCounter
      && c.entries[i].id == id && c.entries[i].data == es[i].data && c.entries[i].dirty == es[i].dirty
      && (forall j :: 0 <= j < |es| && j != i ==> c.entries[j] == es[j])
  {
  }

  /**
   * A miss whose disk read fails returns CACHE_ERROR, still counts a miss,
   * and leaves one entry fewer when the cache was full: the victim evicted
   * to make room is gone although nothing was admitted.
   */
  lemma ReadFailShrinks(s: Sys, id: u64, writeOk: bool)
    requires IndexOf(s.cache.entries, id).None?
    ensures var r := ReadStep(s, id, writeOk, false);
      && r.status == CACHE_ERROR && r.data == None
      && r.sys.cache.misses == s.cache.misses + 1 && r.sys.cache.hits == s.cache.hits
      && |r.sys.cache.entries| == |s.cache.entries| - (if |s.cache.entries| >= MAX_CACHE_BLOCKS then 1 else 0)
  {
  }

  /** A miss issues exactly one read, of `id`, after at most one write-back. */
  lemma ReadMissIo(s: Sys, id: u64, writeOk: bool, readOk: bool)
    requires IndexOf(s.cache.entries, id).None?
    ensures var l := ReadStep(s, id, writeOk, readOk).sys.log;
      && |s.log| < |l| <= |s.log| + 2 && l[..|s.log|] == s.log && l[|l| - 1] == DiskRead(id)
      && (|l| == |s.log| + 2 ==> l[|s.log|].DiskWrite? && |s.cache.entries| >= MAX_CACHE_BLOCKS)
  {
  }

  /** The hit side of ReadReturnsView: the entry's data, and no view changes. */
  lemma ReadHitView(s: Sys, id: u64, writeOk: bool, readOk: bool, i: nat)
    requires Inv(s) && IndexOf(s.cache.entries, id) == Some(i)
    ensures var r := ReadStep(s, id, writeOk, readOk);
      r.status == CACHE_SUCCESS && r.data == View(s, id)
    ensures forall x :: View(ReadStep(s, id, writeOk, readOk).sys, x) == View(s, x)
  {
    ViewResident(s, id, i);
    var r := ReadStep(s, id, writeOk, readOk);
    forall x ensures View(r.sys, x) == View(s, x) {
      IndexOfSameIds(s.cache.entries, r.sys.cache.entries, x);
    }
  }

  /** Before the disk read of a miss: room is made, the id is still absent and its view unchanged. */
  lemma ReadMissRoom(s: Sys, id: u64, writeOk: bool) returns (s1: Sys)
    requires Inv(s) && IndexOf(s.cache.entries, id).None?
    ensures s1 == MakeRoom(s.(cache := s.cache.(misses := s.cache.misses + 1)), writeOk)
    ensures Inv(s1) && |s1.cache.entries| < MAX_CACHE_BLOCKS
    ensures forall j :: 0 <= j < |s1.cache.entries| ==> s1.cache.entries[j].id != id
    ensures (id in s1.disk) == (id in s.disk) && (id in s.disk ==> s1.disk[id] == s.disk[id])
    ensures writeOk ==> forall x :: View(s1, x) == View(s, x)
  {
    var c := s.cache;
    var s0 := s.(cache := c.(misses := c.misses + 1));
    MakeRoomInv(s0, writeOk);
    s1 := MakeRoom(s0, writeOk);
    MakeRoomView(s0, writeOk, id);
    ViewAbsent(s, id);
    forall j | 0 <= j < |s1.cache.entries| ensures s1.cache.entries[j].id != id {
      assert s1.cache.entries[j] in c.entries;
    }
    ViewAbsent(s1, id);
    assert View(s0, id) == View(s, id);
    if writeOk {
      forall x ensures View(s1, x) == View(s, x) {
        MakeRoomView(s0, writeOk, x);
        assert View(s0, x) == View(s, x);
      }
    }
  }

  /** Appending an entry for an absent id: that id shows the entry's data, every other id is unchanged. */
  lemma AppendView(t: Sys, e: Entry, c: CacheState, log: seq<IoEvent>, x: u64)
    requires forall j :: 0 <= j < |t.cache.entries| ==> t.cache.entries[j].id != e.id
    requires c.entries == t.cache.entries + [e]
    ensures View(Sys(c, t.disk, log), x) == if x == e.id then Some(e.data) else View(t, x)
  {
    if x == e.id {
      IndexOfAt(c.entries, x, |t.cache.entries|);
    } else {
      IndexOfAppend(t.cache.entries, e, x);
    }
  }

  /** A miss the backing store answers: the stored data, and (write-backs succeeding) no view changes. */
  lemma ReadMissOkView(s: Sys, id: u64, writeOk: bool, s1: Sys)
    requires Inv(s) && IndexOf(s.cache.entries, id).None?
    requires s1 == MakeRoom(s.(cache := s.cache.(misses := s.cache.misses + 1)), writeOk)
    requires forall j :: 0 <= j < |s1.cache.entries| ==> s1.cache.entries[j].id != id
    requires writeOk ==> forall x :: View(s1, x) == View(s, x)
    requires id in s1.disk && id in s.disk && s1.disk[id] == s.disk[id]
    ensures var r := ReadStep(s, id, writeOk, true);
      r.status == CACHE_SUCCESS && r.data == Some(s.disk[id])
    ensures writeOk ==> forall x :: View(ReadStep(s, id, writeOk, true).sys, x) == View(s, x)
  {
    var s3 := ReadMissOk(s, id, writeOk);
    var e := Entry(id, s1.disk[id], s1.cache.accessCounter + 1, false);
    if writeOk {
      forall x ensures View(s3, x) == View(s, x) {
        AppendView(s1, e, s3.cache, s3.log, x);
        if x == id {
          ViewAbsent(s, id);
        }
      }
    }
  }

  /** The miss side of ReadReturnsView. */
  lemma ReadMissView(s: Sys, id: u64, writeOk: bool, readOk: bool)
    requires Inv(s) && IndexOf(s.cache.entries, id).None?
    ensures var r := ReadStep(s, id, writeOk, readOk);
      && (r.status == CACHE_SUCCESS <==> readOk && id in s.disk)
      && (r.status == CACHE_SUCCESS ==> r.data == View(s, id))
      && (r.status != CACHE_SUCCESS ==> r.status == CACHE_ERROR && r.data == None)
    ensures writeOk ==> forall x :: View(ReadStep(s, id, writeOk, readOk).sys, x) == View(s, x)
  {
    var s1 := ReadMissRoom(s, id, writeOk);
    ViewAbsent(s, id);
    if readOk && id in s1.disk {
      ReadMissOkView(s, id, writeOk, s1);
    } else {
      ReadMissFailView(s, id, writeOk, readOk, s1);
    }
  }

  /** A miss the backing store cannot serve only logs the read it tried. */
  lemma ReadMissFailView(s: Sys, id: u64, writeOk: bool, readOk: bool, s1: Sys)
    requires IndexOf(s.cache.entries, id).None?
    requires s1 == MakeRoom(s.(cache := s.cache.(misses := s.cache.misses + 1)), writeOk)
    requires !(readOk && id in s1.disk)
    ensures ReadStep(s, id, writeOk, readOk) == Reply(s1.(log := s1.log + [DiskRead(id)]), CACHE_ERROR, None)
    ensures forall x :: View(ReadStep(s, id, writeOk, readOk).sys, x) == View(s1, x)
  {
  }

  /**
   * `cache_read` returns what a client observes; it succeeds exactly when
   * the id is resident or the backing store delivers it; and (when any
   * write-back succeeds) it changes nothing a client observes.
   */
  lemma ReadReturnsView(s: Sys, id: u64, writeOk: bool, readOk: bool)
    requires Inv(s)
    ensures var r := ReadStep(s, id, writeOk, readOk);
      && (r.status == CACHE_SUCCESS <==> IndexOf(s.cache.entries, id).Some? || (readOk && id in s.disk))
      && (r.status == CACHE_SUCCESS ==> r.data == View(s, id))
      && (r.status == CACHE_ERROR ==> r.data == None)
      && IsStatus(r.status)
    ensures writeOk ==> forall x :: View(ReadStep(s, id, writeOk, readOk).sys, x) == View(s, x)
  {
    match IndexOf(s.cache.entries, id)
    case Some(i) => ReadHitView(s, id, writeOk, readOk, i);
    case None => ReadMissView(s, id, writeOk, readOk);
  }

  // ----- cache_write -----

  /** After `cache_write` the id is resident, holding the data, dirty, stamped with the new counter value. */
  lemma WriteResident(s: Sys, id: u64, data: Block, writeOk: bool)
    requires Inv(s)
    ensures var c := WriteStep(s, id, data, writeOk).cache;
      && c.accessCounter == s.cache.accessCounter + 1
      && Lookup(c.entries, id) == Some(Entry(id, data, c.accessCounter, true))
  {
    var c := s.cache;
    var es' := WriteStep(s, id, data, writeOk).cache.entries;
    match IndexOf(c.entries, id)
    case Some(i) =>
      IndexOfAt(es', id, i);
    case None =>
      MakeRoomInv(s, writeOk);
      var s1 := MakeRoom(s, writeOk);
      forall j | 0 <= j < |s1.cache.entries| ensures s1.cache.entries[j].id != id {
        assert s1.cache.entries[j] in c.entries;
      }
      IndexOfAt(es', id, |s1.cache.entries|);
  }

  /**
   * `cache_write` reads nothing and does not touch the counters of hits and
   * misses; it issues at most one disk write, an eviction's, and only when
   * the cache is full and the id is not resident.
   */
  lemma WriteIo(s: Sys, id: u64, data: Block, writeOk: bool)
    ensures var s' := WriteStep(s, id, data, writeOk);
      && s'.cache.hits == s.cache.hits && s'.cache.misses == s.cache.misses
      && |s.log| <= |s'.log| <= |s.log| + 1 && s'.log[..|s.log|] == s.log
      && (forall k :: |s.log| <= k < |s'.log| ==> s'.log[k].DiskWrite?)
      && (|s'.log| > |s.log| ==> |s.cache.entries| >= MAX_CACHE_BLOCKS && IndexOf(s.cache.entries, id).None?)
  {
  }

  /**
   * Read after write: reading an id just written is a hit that returns the
   * data written, counts one hit, and does no I/O.
   */
  lemma ReadAfterWrite(s: Sys, id: u64, data: Block, writeOk: bool, writeOk2: bool, readOk: bool)
    requires Inv(s)
    ensures var s' := WriteStep(s, id, data, writeOk);
      var r := ReadStep(s', id, writeOk2, readOk);
      && r.status == CACHE_SUCCESS && r.data == Some(data)
      && r.sys.cache.hits == s'.cache.hits + 1 && r.sys.cache.misses == s'.cache.misses
      && r.sys.disk == s'.disk && r.sys.log == s'.log
  {
    WriteResident(s, id, data, writeOk);
  }

  /** The hit side of WriteView: only the written id changes its view. */
  lemma WriteHitView(s: Sys, id: u64, data: Block, writeOk: bool, i: nat, x: u64)
    requires IndexOf(s.cache.entries, id) == Some(i) && x != id
    ensures View(WriteStep(s, id, data, writeOk), x) == View(s, x)
  {
    var s' := WriteStep(s, id, data, writeOk);
    IndexOfSameIds(s.cache.entries, s'.cache.entries, x);
    assert s'.disk == s.disk;
  }

  /** The state a write miss leaves, written out. */
  lemma WriteMissShape(s: Sys, id: u64, data: Block, writeOk: bool)
    requires IndexOf(s.cache.entries, id).None?
    ensures var s1 := MakeRoom(s, writeOk);
      var e := Entry(id, data, s1.cache.accessCounter + 1, true);
      WriteStep(s, id, data, writeOk)
        == Sys(s1.cache.(entries := s1.cache.entries + [e], accessCounter := e.lastAccess), s1.disk, s1.log)
  {
  }

  /** The miss side of WriteView. */
  lemma WriteMissView(s: Sys, id: u64, data: Block, writeOk: bool, x: u64)
    requires Inv(s) && IndexOf(s.cache.entries, id).None? && x != id && writeOk
    ensures View(WriteStep(s, id, data, writeOk), x) == View(s, x)
  {
    MakeRoomInv(s, writeOk);
    MakeRoomView(s, writeOk, x);
    var s1 := MakeRoom(s, writeOk);
    var e := Entry(id, data, s1.cache.accessCounter + 1, true);
    var c := s1.cache.(entries := s1.cache.entries + [e], accessCounter := e.lastAccess);
    WriteMissShape(s, id, data, writeOk);
    forall j | 0 <= j < |s1.cache.entries| ensures s1.cache.entries[j].id != id {
      assert s1.cache.entries[j] in s.cache.entries;
    }
    AppendView(s1, e, c, s1.log, x);
  }

  /** A client observes the data just written; other ids keep their view when any write-back succeeds. */
  lemma WriteView(s: Sys, id: u64, data: Block, writeOk: bool)
    requires Inv(s) && |data| == BLOCK_SIZE
    ensures View(WriteStep(s, id, data, writeOk), id) == Some(data)
    ensures writeOk ==> forall x :: x != id ==> View(WriteStep(s, id, data, writeOk), x) == View(s, x)
  {
    WriteResident(s, id, data, writeOk);
    if writeOk {
      forall x | x != id ensures View(WriteStep(s, id, data, writeOk), x) == View(s, x) {
        match IndexOf(s.cache.entries, id) {
          case Some(i) => WriteHitView(s, id, data, writeOk, i, x);
          case None => WriteMissView(s, id, data, writeOk, x);
        }
      }
    }
  }

  // ----- cache_flush -----

  /** Entries that are all clean issue no writes and leave the store as it is. */
  lemma {:induction false} CleanNoWrites(disk: map<u64, Block>, es: seq<Entry>)
    requires forall j :: 0 <= j < |es| ==> !es[j].dirty
    ensures Persist(disk, es) == disk && WriteLog(es) == []
    decreases |es|
  {
    if es != [] {
      CleanNoWrites(disk, es[..|es| - 1]);
    }
  }

  /**
   * What `cache_flush` changes: only dirty flags (cleared before `stop`,
   * kept from `stop` on), never stamps or counters; it succeeds exactly when
   * it got to the end.
   */
  lemma FlushEffect(s: Sys, stop: nat)
    requires FlushStop(s.cache.entries, stop)
    ensures var es := s.cache.entries; var r := FlushStep(s, stop);
      && (r.status == CACHE_SUCCESS <==> stop == |es|) && IsStatus(r.status) && r.data == None
      && r.sys.cache.accessCounter == s.cache.accessCounter
      && r.sys.cache.hits == s.cache.hits && r.sys.cache.misses == s.cache.misses
      && |r.sys.cache.entries| == |es|
      && (forall j :: 0 <= j < |es| ==> r.sys.cache.entries[j] == es[j].(dirty := r.sys.cache.entries[j].dirty))
      && (forall j :: 0 <= j < stop ==> !r.sys.cache.entries[j].dirty)
      && (forall j :: stop <= j < |es| ==> r.sys.cache.entries[j].dirty == es[j].dirty)
      && (stop < |es| ==> r.sys.cache.entries[stop].dirty)
  {
    FlushedEntries(s, stop);
  }

  /** A successful flush leaves every entry clean and the store holding every entry's data. */
  lemma FlushSuccessPersists(s: Sys)
    requires Inv(s)
    ensures var es := s.cache.entries; var r := FlushStep(s, |es|);
      && r.status == CACHE_SUCCESS
      && (forall j :: 0 <= j < |es| ==> !r.sys.cache.entries[j].dirty)
      && (forall j :: 0 <= j < |es| ==> es[j].id in r.sys.disk && r.sys.disk[es[j].id] == es[j].data)
  {
    var es := s.cache.entries;
    FlushPreservesInv(s, |es|);
    FlushedEntries(s, |es|);
  }

  /** After a successful flush a second one cannot fail, writes nothing and changes nothing. */
  lemma FlushIdempotent(s: Sys)
    requires Inv(s)
    ensures var r := FlushStep(s, |s.cache.entries|);
      && (forall stop :: FlushStop(r.sys.cache.entries, stop) ==> stop == |s.cache.entries|)
      && FlushStep(r.sys, |s.cache.entries|) == Reply(r.sys, CACHE_SUCCESS, None)
  {
    var es := s.cache.entries;
    var r := FlushStep(s, |es|);
    FlushedEntries(s, |es|);
    var clean := r.sys.cache.entries;
    CleanNoWrites(r.sys.disk, clean);
    assert MarkClean(clean) == clean;
  }

  /** Whatever write fails, a flush changes nothing a client observes. */
  lemma FlushView(s: Sys, stop: nat, id: u64)
    requires Inv(s) && FlushStop(s.cache.entries, stop)
    ensures View(FlushStep(s, stop).sys, id) == View(s, id)
  {
    var es := s.cache.entries;
    var s' := FlushStep(s, stop).sys;
    FlushedEntries(s, stop);
    FlushPreservesInv(s, stop);
    IndexOfSameIds(es, s'.cache.entries, id);
    if IndexOf(es, id).None? {
      PersistElsewhere(s.disk, es[..stop], id);
    }
  }

  // ----- runs of operations -----

  /** One client call on the cache: a write, a read answered `readOk`, or a flush. */
  datatype Op = Put(id: u64, data: Block) | Get(id: u64, readOk: bool) | Sync

  /** Every written block holds BLOCK_SIZE bytes. */
  predicate SizedOps(ops: seq<Op>) {
    forall k :: 0 <= k < |ops| && ops[k].Put? ==> |ops[k].data| == BLOCK_SIZE
  }

  /** No call writes `b`. */
  predicate LeavesAlone(ops: seq<Op>, b: u64) {
    forall k :: 0 <= k < |ops| && ops[k].Put? ==> ops[k].id != b
  }

  /** The calls, in order, with every write to the backing store succeeding. */
  function Run(s: Sys, ops: seq<Op>): Sys
    decreases |ops|
  {
    if ops == [] then s
    else
      var s1 := match ops[0]
        case Put(id, data) => WriteStep(s, id, data, true)
        case Get(id, readOk) => ReadStep(s, id, true, readOk).sys
        case Sync => FlushStep(s, |s.cache.entries|).sys;
      Run(s1, ops[1..])
  }

  /** A run that does not write `b` keeps the invariant and what a client observes for `b`. */
  lemma {:induction false} RunKeepsView(s: Sys, ops: seq<Op>, b: u64)
    requires Inv(s) && SizedOps(ops) && LeavesAlone(ops, b)
    ensures Inv(Run(s, ops)) && View(Run(s, ops), b) == View(s, b)
    decreases |ops|
  {
    if ops != [] {
      var s1 := match ops[0]
        case Put(id, data) => WriteStep(s, id, data, true)
        case Get(id, readOk) => ReadStep(s, id, true, readOk).sys
        case Sync => FlushStep(s, |s.cache.entries|).sys;
      match ops[0] {
        case Put(id, data) =>
          WritePreservesInv(s, id, data, true);
          WriteView(s, id, data, true);
        case Get(id, readOk) =>
          ReadPreservesInv(s, id, true, readOk);
          ReadReturnsView(s, id, true, readOk);
        case Sync =>
          FlushPreservesInv(s, |s.cache.entries|);
          FlushView(s, |s.cache.entries|, b);
      }
      assert SizedOps(ops[1..]) && LeavesAlone(ops[1..], b) by {
        forall k | 0 <= k < |ops[1..]| ensures ops[1..][k] == ops[k + 1] { }
      }
      RunKeepsView(s1, ops[1..], b);
    }
  }

  /**
   * A block written once and then left alone reads back as written, however
   * many other blocks are read, written or flushed in between, and whether
   * or not it was evicted meanwhile, as long as write-backs succeed.
   */
  lemma RoundTripThroughEviction(s: Sys, b: u64, data: Block, ops: seq<Op>)
    requires Inv(s) && |data| == BLOCK_SIZE && SizedOps(ops) && LeavesAlone(ops, b)
    ensures var r := ReadStep(Run(WriteStep(s, b, data, true), ops), b, true, true);
      r.status == CACHE_SUCCESS && r.data == Some(data)
  {
    var s1 := WriteStep(s, b, data, true);
    WritePreservesInv(s, b, data, true);
    WriteView(s, b, data, true);
    RunKeepsView(s1, ops, b);
    var t := Run(s1, ops);
    ReadReturnsView(t, b, true, true);
    if IndexOf(t.cache.entries, b).None? {
      ViewAbsent(t, b);
    }
  }

  // ----- least-recently-used replacement over a run of writes -----

  /** The ids resident in `es`. */
  function Ids(es: seq<Entry>): set<u64> {
    set j | 0 <= j < |es| :: es[j].id
  }

  /** There are at most as many resident ids as entries. */
  lemma {:induction false} IdsBound(es: seq<Entry>)
    ensures |Ids(es)| <= |es|
    decreases |es|
  {
    if es != [] {
      var p := es[..|es| - 1];
      IdsBound(p);
      assert Ids(es) == Ids(p) + {es[|es| - 1].id} by {
        forall x | x in Ids(es) ensures x in Ids(p) + {es[|es| - 1].id} {
          var j :| 0 <= j < |es| && es[j].id == x;
          if j < |p| { assert p[j] == es[j]; }
        }
        forall x | x in Ids(p) ensures x in Ids(es) {
          var j :| 0 <= j < |p| && p[j].id == x;
          assert es[j] == p[j];
        }
      }
    }
  }

  /** The ids the writes of `ops` name. */
  function Written(ops: seq<Op>): set<u64>
    decreases |ops|
  {
    if ops == [] then {}
    else (if ops[0].Put? then {ops[0].id} else {}) + Written(ops[1..])
  }

  /** Only writes. */
  predicate OnlyPuts(ops: seq<Op>) {
    forall k :: 0 <= k < |ops| ==> ops[k].Put?
  }

  /**
   * While `b` is resident, every id of `w` is resident too and was touched
   * more recently than `b`.
   */
  predicate NewerThan(es: seq<Entry>, b: u64, w: set<u64>) {
    b !in w && w <= Ids(es) && Older(es, b, w)
  }

  /** Every entry for `b` is older than every entry for an id of `w`. */
  predicate Older(es: seq<Entry>, b: u64, w: set<u64>) {
    forall i, j :: 0 <= i < |es| && 0 <= j < |es| && es[i].id == b && es[j].id in w ==>
      es[i].lastAccess < es[j].lastAccess
  }

  /** Removing an entry keeps the order between the remaining ones. */
  lemma RemoveKeepsOlder(es: seq<Entry>, k: nat, b: u64, w: set<u64>)
    requires k < |es| && Older(es, b, w)
    ensures Older(RemoveAt(es, k), b, w)
  {
    var r := RemoveAt(es, k);
    forall i, j | 0 <= i < |r| && 0 <= j < |r| && r[i].id == b && r[j].id in w
      ensures r[i].lastAccess < r[j].lastAccess
    {
      RemoveAtFrom(es, k, i);
      RemoveAtFrom(es, k, j);
    }
  }

  /** An entry other than the removed one stays resident. */
  lemma RemoveKeepsId(es: seq<Entry>, k: nat, j: nat)
    requires k < |es| && j < |es| && j != k
    ensures es[j].id in Ids(RemoveAt(es, k))
  {
    var j' := if j < k then j else j - 1;
    RemoveAtFrom(es, k, j');
    assert RemoveAt(es, k)[j'] == es[j];
  }

  /** Removing the least recently used entry while `b` is resident removes `b` itself or keeps the whole of `w`. */
  lemma RemoveLruTracks(es: seq<Entry>, b: u64, w: set<u64>)
    requires |es| > 0 && b in Ids(es) && NewerThan(es, b, w)
    ensures var r := RemoveAt(es, LruIndex(es));
      es[LruIndex(es)].id == b || (b in Ids(r) && NewerThan(r, b, w))
  {
    var k := LruIndex(es);
    var r := RemoveAt(es, k);
    if es[k].id != b {
      var ib :| 0 <= ib < |es| && es[ib].id == b;
      RemoveKeepsId(es, k, ib);
      forall x | x in w ensures x in Ids(r) {
        var j :| 0 <= j < |es| && es[j].id == x;
        assert es[ib].lastAccess < es[j].lastAccess;
        RemoveKeepsId(es, k, j);
      }
      RemoveKeepsOlder(es, k, b, w);
    }
  }

  /** Re-stamping the entry of another resident id with a newer stamp extends the tracking to it. */
  lemma TouchTracks(es: seq<Entry>, i: nat, e: Entry, counter: nat, b: u64, w: set<u64>)
    requires i < |es| && es[i].id == e.id && e.id != b && UniqueIds(es)
    requires StampsBelow(es, counter) && e.lastAccess > counter
    requires NewerThan(es, b, w)
    ensures NewerThan(es[i := e], b, w + {e.id})
  {
    var r := es[i := e];
    forall x | x in w + {e.id} ensures x in Ids(r) {
      if x in w {
        var j :| 0 <= j < |es| && es[j].id == x;
        assert r[j].id == x;
      } else {
        assert r[i].id == x;
      }
    }
    forall i0, j | 0 <= i0 < |r| && 0 <= j < |r| && r[i0].id == b && r[j].id in w + {e.id}
      ensures r[i0].lastAccess < r[j].lastAccess
    {
      assert r[i0] == es[i0];
      if j != i {
        assert r[j] == es[j];
      }
    }
  }

  /** Appending an entry newer than all others extends the tracking to its id. */
  lemma AppendTracks(es: seq<Entry>, e: Entry, b: u64, w: set<u64>)
    requires e.id != b && forall j :: 0 <= j < |es| ==> es[j].lastAccess < e.lastAccess && es[j].id != e.id
    requires NewerThan(es, b, w)
    ensures NewerThan(es + [e], b, w + {e.id})
  {
    var r := es + [e];
    forall x | x in w + {e.id} ensures x in Ids(r) {
      if x in w {
        var j :| 0 <= j < |es| && es[j].id == x;
        assert r[j].id == x;
      } else {
        assert r[|es|].id == x;
      }
    }
    forall i0, j | 0 <= i0 < |r| && 0 <= j < |r| && r[i0].id == b && r[j].id in w + {e.id}
      ensures r[i0].lastAccess < r[j].lastAccess
    {
      assert i0 < |es| && r[i0] == es[i0];
      if j < |es| {
        assert r[j] == es[j];
      }
    }
  }

  /** A write of an id other than `b`: `b` stays absent if it was, and otherwise the tracking extends to the written id. */
  lemma PutTracks(s: Sys, id: u64, data: Block, b: u64, w: set<u64>)
    requires Inv(s) && id != b
    requires b in Ids(s.cache.entries) ==> NewerThan(s.cache.entries, b, w)
    ensures var r := WriteStep(s, id, data, true).cache.entries;
      b in Ids(r) ==> NewerThan(r, b, w + {id})
  {
    var c := s.cache;
    var es := c.entries;
    var t := c.accessCounter + 1;
    match IndexOf(es, id)
    case Some(i) =>
      if b in Ids(es) {
        TouchTracks(es, i, es[i].(data := data, lastAccess := t, dirty := true), c.accessCounter, b, w);
      }
    case None =>
      PutMissTracks(s, id, data, b, w);
  }

  /** The miss side of PutTracks. */
  lemma PutMissTracks(s: Sys, id: u64, data: Block, b: u64, w: set<u64>)
    requires Inv(s) && id != b && IndexOf(s.cache.entries, id).None?
    requires b in Ids(s.cache.entries) ==> NewerThan(s.cache.entries, b, w)
    ensures var r := WriteStep(s, id, data, true).cache.entries;
      b in Ids(r) ==> NewerThan(r, b, w + {id})
  {
    var es := s.cache.entries;
    MakeRoomInv(s, true);
    var s1 := MakeRoom(s, true);
    var es1 := s1.cache.entries;
    var e := Entry(id, data, s1.cache.accessCounter + 1, true);
    var r := WriteStep(s, id, data, true).cache.entries;
    WriteMissShape(s, id, data, true);
    assert r == es1 + [e];
    if b in Ids(r) {
      var ib :| 0 <= ib < |r| && r[ib].id == b;
      assert ib < |es1| && es1[ib].id == b && es1[ib] in es;
      assert b in Ids(es1) && b in Ids(es);
      MakeRoomTracks(s, b, w);
      forall j | 0 <= j < |es1| ensures es1[j].lastAccess < e.lastAccess && es1[j].id != e.id {
        assert es1[j] in es;
      }
      AppendTracks(es1, e, b, w);
    }
  }

  /** Making room keeps `b` older than the ids of `w` while `b` stays resident. */
  lemma MakeRoomTracks(s: Sys, b: u64, w: set<u64>)
    requires Inv(s) && NewerThan(s.cache.entries, b, w)
    requires b in Ids(MakeRoom(s, true).cache.entries)
    ensures NewerThan(MakeRoom(s, true).cache.entries, b, w)
  {
    var es := s.cache.entries;
    if |es| >= MAX_CACHE_BLOCKS {
      var es1 := MakeRoom(s, true).cache.entries;
      var ib :| 0 <= ib < |es1| && es1[ib].id == b;
      MakeRoomInv(s, true);
      assert es1[ib] in es;
      RemoveLruTracks(es, b, w);
      RemoveAtKeeps(es, LruIndex(es), s.cache.accessCounter);
    }
  }

  /** Over a run of writes that leave `b` alone, `b` is evicted or every id written stays resident and newer. */
  lemma {:induction false} PutsTrack(s: Sys, ops: seq<Op>, b: u64, w: set<u64>)
    requires Inv(s) && OnlyPuts(ops) && SizedOps(ops) && LeavesAlone(ops, b)
    requires b in Ids(s.cache.entries) ==> NewerThan(s.cache.entries, b, w)
    ensures var t := Run(s, ops).cache.entries;
      b in Ids(t) ==> NewerThan(t, b, w + Written(ops))
    decreases |ops|
  {
    if ops != [] {
      var id, data := ops[0].id, ops[0].data;
      var s1 := WriteStep(s, id, data, true);
      assert Run(s, ops) == Run(s1, ops[1..]);
      WritePreservesInv(s, id, data, true);
      PutTracks(s, id, data, b, w);
      assert OnlyPuts(ops[1..]) && SizedOps(ops[1..]) && LeavesAlone(ops[1..], b) by {
        forall k | 0 <= k < |ops[1..]| ensures ops[1..][k] == ops[k + 1] { }
      }
      PutsTrack(s1, ops[1..], b, w + {id});
      assert w + {id} + Written(ops[1..]) == w + Written(ops);
    }
  }

  /** While `b` is resident and tracked, fewer ids are tracked than there are entries. */
  lemma TrackedBound(es: seq<Entry>, b: u64, w: set<u64>)
    requires b in Ids(es) && NewerThan(es, b, w)
    ensures |w| < |es|
  {
    var t := w + {b};
    assert t <= Ids(es);
    assert |t| == |w| + 1;
    assert Ids(es) == t + (Ids(es) - t);
    assert t * (Ids(es) - t) == {};
    IdsBound(es);
  }

  /**
   * Least-recently-used replacement: once MAX_CACHE_BLOCKS distinct other
   * blocks have been written after `b`, `b` is no longer resident.
   */
  lemma EvictedAfterCapacity(s: Sys, b: u64, data: Block, ops: seq<Op>)
    requires Inv(s) && |data| == BLOCK_SIZE && OnlyPuts(ops) && SizedOps(ops) && LeavesAlone(ops, b)
    requires |Written(ops)| >= MAX_CACHE_BLOCKS
    ensures IndexOf(Run(WriteStep(s, b, data, true), ops).cache.entries, b).None?
  {
    var s1 := WriteStep(s, b, data, true);
    WritePreservesInv(s, b, data, true);
    WriteResident(s, b, data, true);
    var i1 := IndexOf(s1.cache.entries, b).value;
    assert s1.cache.entries[i1].id == b;
    assert NewerThan(s1.cache.entries, b, {});
    PutsTrack(s1, ops, b, {});
    RunKeepsView(s1, ops, b);
    var es := Run(s1, ops).cache.entries;
    match IndexOf(es, b) {
      case None =>
      case Some(i) =>
        assert es[i].id == b;
        TrackedBound(es, b, Written(ops));
    }
  }
}
