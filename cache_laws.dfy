/**
 * Invariant preservation for the functional description in CacheSpec: every
 * operation keeps `Inv` whatever the backing store answers, together with
 * the facts about removal, appending and write-back (`Persist`) that those
 * proofs need. The laws a client relies on are in CacheProps.
 */
module CacheLaws {
  import opened CacheTypes
  import opened BackingStore
  import opened CacheSpec

  // ----- helpers about the pieces -----

  /** Every entry left after a removal was there before, at index j or j + 1. */
  lemma RemoveAtFrom(es: seq<Entry>, k: nat, j: nat)
    requires k < |es| && j < |es| - 1
    ensures RemoveAt(es, k)[j] == es[if j < k then j else j + 1]
  {
  }

  /** Removing an entry keeps WellFormed except the counters, and drops exactly the victim's id. */
  lemma {:induction false} RemoveAtKeeps(es: seq<Entry>, k: nat, counter: nat)
    requires k < |es|
    requires WellSized(es) && UniqueIds(es) && DistinctStamps(es) && StampsBelow(es, counter)
    ensures var r := RemoveAt(es, k);
      WellSized(r) && UniqueIds(r) && DistinctStamps(r) && StampsBelow(r, counter)
    ensures forall j :: 0 <= j < |es| - 1 ==> RemoveAt(es, k)[j].id != es[k].id
  {
    var r := RemoveAt(es, k);
    forall i, j | 0 <= i < j < |r|
      ensures r[i].id != r[j].id && r[i].lastAccess != r[j].lastAccess
    {
      RemoveAtFrom(es, k, i);
      RemoveAtFrom(es, k, j);
    }
    forall j | 0 <= j < |r|
      ensures r[j].id != es[k].id
    {
      RemoveAtFrom(es, k, j);
    }
  }

  /** The eviction keeps the invariant and shrinks the cache by exactly one entry. */
  lemma EvictPreservesInv(s: Sys, writeOk: bool)
    requires Inv(s) && |s.cache.entries| > 0
    ensures Inv(EvictStep(s, writeOk))
    ensures |EvictStep(s, writeOk).cache.entries| == |s.cache.entries| - 1
  {
    var es := s.cache.entries;
    var k := LruIndex(es);
    RemoveAtKeeps(es, k, s.cache.accessCounter);
    var s' := EvictStep(s, writeOk);
    var r := s'.cache.entries;
    forall j | 0 <= j < |r| && !r[j].dirty
      ensures r[j].id in s'.disk && s'.disk[r[j].id] == r[j].data
    {
      RemoveAtFrom(es, k, j);
    }
  }

  /** Making room leaves space for one more entry and keeps the invariant. */
  lemma MakeRoomInv(s: Sys, writeOk: bool)
    requires Inv(s)
    ensures Inv(MakeRoom(s, writeOk))
    ensures |MakeRoom(s, writeOk).cache.entries| < MAX_CACHE_BLOCKS
    ensures MakeRoom(s, writeOk).cache.accessCounter == s.cache.accessCounter
    ensures forall j :: 0 <= j < |MakeRoom(s, writeOk).cache.entries| ==>
              MakeRoom(s, writeOk).cache.entries[j] in s.cache.entries
  {
    if |s.cache.entries| >= MAX_CACHE_BLOCKS {
      EvictPreservesInv(s, writeOk);
      var es := s.cache.entries;
      forall j | 0 <= j < |MakeRoom(s, writeOk).cache.entries|
        ensures MakeRoom(s, writeOk).cache.entries[j] in es
      {
        RemoveAtFrom(es, LruIndex(es), j);
      }
    }
  }

  /** Appending an entry with a fresh id and a stamp newer than the counter keeps WellFormed. */
  lemma AppendKeeps(c: CacheState, e: Entry, t: nat)
    requires WellFormed(c) && |c.entries| < MAX_CACHE_BLOCKS
    requires |e.data| == BLOCK_SIZE && e.lastAccess == t && t > c.accessCounter
    requires forall j :: 0 <= j < |c.entries| ==> c.entries[j].id != e.id
    ensures WellFormed(c.(entries := c.entries + [e], accessCounter := t))
  {
  }

  /** Replacing entry i by one with the same id and a stamp newer than the counter keeps WellFormed. */
  lemma ReplaceKeeps(c: CacheState, i: nat, e: Entry, t: nat)
    requires WellFormed(c) && i < |c.entries|
    requires |e.data| == BLOCK_SIZE && e.id == c.entries[i].id && e.lastAccess == t && t > c.accessCounter
    ensures WellFormed(c.(entries := c.entries[i := e], accessCounter := t))
  {
  }

  // ----- the invariant is kept by every operation -----

  /** `cache_read` keeps the invariant, whatever the backing store answers. */
  lemma ReadPreservesInv(s: Sys, id: u64, writeOk: bool, readOk: bool)
    requires Inv(s)
    ensures Inv(ReadStep(s, id, writeOk, readOk).sys)
  {
    var c := s.cache;
    match IndexOf(c.entries, id)
    case Some(i) =>
      var t := c.accessCounter + 1;
      ReplaceKeeps(c, i, c.entries[i].(lastAccess := t), t);
      var c' := c.(entries := c.entries[i := c.entries[i].(lastAccess := t)], accessCounter := t);
      assert ReadStep(s, id, writeOk, readOk).sys == s.(cache := c'.(hits := c.hits + 1));
    case None =>
      ReadMissPreservesInv(s, id, writeOk, readOk);
  }

  /** Appending a fresh, newer entry that is dirty or matches the store keeps the invariant. */
  lemma AppendInv(s: Sys, e: Entry)
    requires Inv(s) && |s.cache.entries| < MAX_CACHE_BLOCKS
    requires |e.data| == BLOCK_SIZE && e.lastAccess == s.cache.accessCounter + 1
    requires forall j :: 0 <= j < |s.cache.entries| ==> s.cache.entries[j].id != e.id
    requires !e.dirty ==> e.id in s.disk && s.disk[e.id] == e.data
    ensures Inv(s.(cache := s.cache.(entries := s.cache.entries + [e], accessCounter := e.lastAccess)))
  {
    AppendKeeps(s.cache, e, e.lastAccess);
  }

  lemma ReadMissPreservesInv(s: Sys, id: u64, writeOk: bool, readOk: bool)
    requires Inv(s) && IndexOf(s.cache.entries, id).None?
    ensures Inv(ReadStep(s, id, writeOk, readOk).sys)
  {
    var c := s.cache;
    var s0 := s.(cache := c.(misses := c.misses + 1));
    MakeRoomInv(s0, writeOk);
    var s1 := MakeRoom(s0, writeOk);
    var s2 := s1.(log := s1.log + [DiskRead(id)]);
    assert Inv(s2);
    if readOk && id in s2.disk {
      var e := Entry(id, s2.disk[id], s2.cache.accessCounter + 1, false);
      assert ReadStep(s, id, writeOk, readOk).sys
          == s2.(cache := s2.cache.(entries := s2.cache.entries + [e], accessCounter := e.lastAccess));
      forall j | 0 <= j < |s2.cache.entries|
        ensures s2.cache.entries[j].id != id
      {
        assert s1.cache.entries[j] in s0.cache.entries;
      }
      AppendInv(s2, e);
    } else {
      assert ReadStep(s, id, writeOk, readOk).sys == s2;
    }
  }

  /** The state a successful read miss leaves, written out, and its invariant. */
  lemma ReadMissOk(s: Sys, id: u64, writeOk: bool) returns (s3: Sys)
    requires Inv(s) && IndexOf(s.cache.entries, id).None?
    requires id in MakeRoom(s.(cache := s.cache.(misses := s.cache.misses + 1)), writeOk).disk
    ensures var s1 := MakeRoom(s.(cache := s.cache.(misses := s.cache.misses + 1)), writeOk);
      var e := Entry(id, s1.disk[id], s1.cache.accessCounter + 1, false);
      && s3 == Sys(s1.cache.(entries := s1.cache.entries + [e], accessCounter := e.lastAccess),
                   s1.disk, s1.log + [DiskRead(id)])
      && ReadStep(s, id, writeOk, true) == Reply(s3, CACHE_SUCCESS, Some(s1.disk[id]))
      && Inv(s3)
  {
    ReadMissPreservesInv(s, id, writeOk, true);
    var s1 := MakeRoom(s.(cache := s.cache.(misses := s.cache.misses + 1)), writeOk);
    var e := Entry(id, s1.disk[id], s1.cache.accessCounter + 1, false);
    s3 := Sys(s1.cache.(entries := s1.cache.entries + [e], accessCounter := e.lastAccess),
              s1.disk, s1.log + [DiskRead(id)]);
  }

  /** `cache_write` keeps the invariant, whatever the eviction write-back answers. */
  lemma WritePreservesInv(s: Sys, id: u64, data: Block, writeOk: bool)
    requires Inv(s) && |data| == BLOCK_SIZE
    ensures Inv(WriteStep(s, id, data, writeOk))
  {
    var c := s.cache;
    match IndexOf(c.entries, id)
    case Some(i) =>
      var t := c.accessCounter + 1;
      ReplaceKeeps(c, i, c.entries[i].(data := data, lastAccess := t, dirty := true), t);
    case None =>
      MakeRoomInv(s, writeOk);
      var s1 := MakeRoom(s, writeOk);
      forall j | 0 <= j < |s1.cache.entries|
        ensures s1.cache.entries[j].id != id
      {
        assert s1.cache.entries[j] in c.entries;
      }
      var t := s1.cache.accessCounter + 1;
      AppendKeeps(s1.cache, Entry(id, data, t, true), t);
  }

  // ----- flush -----

  /** Writing back keeps every stored block BLOCK_SIZE long. */
  lemma {:induction false} PersistSized(disk: map<u64, Block>, es: seq<Entry>)
    requires DiskSized(disk) && WellSized(es)
    ensures DiskSized(Persist(disk, es))
    decreases |es|
  {
    if es != [] {
      PersistSized(disk, es[..|es| - 1]);
    }
  }

  /** A block no dirty entry of `es` names is left as it was. */
  lemma {:induction false} PersistElsewhere(disk: map<u64, Block>, es: seq<Entry>, id: u64)
    requires forall j :: 0 <= j < |es| && es[j].dirty ==> es[j].id != id
    ensures (id in Persist(disk, es)) == (id in disk)
    ensures id in disk ==> Persist(disk, es)[id] == disk[id]
    decreases |es|
  {
    if es != [] {
      PersistElsewhere(disk, es[..|es| - 1], id);
    }
  }

  /** With unique ids, each dirty entry's data ends up on the store. */
  lemma {:induction false} PersistHolds(disk: map<u64, Block>, es: seq<Entry>, i: nat)
    requires UniqueIds(es) && i < |es| && es[i].dirty
    ensures es[i].id in Persist(disk, es) && Persist(disk, es)[es[i].id] == es[i].data
    decreases |es|
  {
    var n := |es| - 1;
    if i < n {
      PersistHolds(disk, es[..n], i);
    }
  }

  /** The entries after a flush that stopped at `stop`: a cleared prefix, the rest untouched. */
  lemma FlushedEntries(s: Sys, stop: nat)
    requires FlushStop(s.cache.entries, stop)
    ensures var es := s.cache.entries; var r := FlushStep(s, stop).sys.cache.entries;
      |r| == |es| &&
      (forall j :: 0 <= j < stop ==> r[j] == es[j].(dirty := false)) &&
      (forall j :: stop <= j < |es| ==> r[j] == es[j])
    ensures FlushStep(s, stop).sys.disk == Persist(s.disk, s.cache.entries[..stop])
    ensures FlushStep(s, stop).sys.cache.(entries := s.cache.entries) == s.cache
  {
    assert stop == |s.cache.entries| ==> s.cache.entries[..stop] == s.cache.entries;
  }

  /** Changing only dirty flags keeps WellFormed. */
  lemma SameShape(c: CacheState, r: seq<Entry>)
    requires WellFormed(c) && |r| == |c.entries|
    requires forall j :: 0 <= j < |r| ==> r[j] == c.entries[j].(dirty := r[j].dirty)
    ensures WellFormed(c.(entries := r))
  {
  }

  /** One more entry processed by the flush loop: at most one more write. */
  lemma FlushPrefixStep(disk: map<u64, Block>, es: seq<Entry>, i: nat)
    requires i < |es|
    ensures Persist(disk, es[..i + 1])
         == if es[i].dirty then Persist(disk, es[..i])[es[i].id := es[i].data] else Persist(disk, es[..i])
    ensures WriteLog(es[..i + 1])
         == WriteLog(es[..i]) + if es[i].dirty then [DiskWrite(es[i].id, es[i].data)] else []
  {
    assert es[..i + 1][..i] == es[..i];
  }

  /** `cache_flush` keeps the invariant wherever it stops. */
  lemma FlushPreservesInv(s: Sys, stop: nat)
    requires Inv(s) && FlushStop(s.cache.entries, stop)
    ensures Inv(FlushStep(s, stop).sys)
  {
    var es := s.cache.entries;
    var done := es[..stop];
    var s' := FlushStep(s, stop).sys;
    var r := s'.cache.entries;
    FlushedEntries(s, stop);
    SameShape(s.cache, r);
    assert s'.cache == s.cache.(entries := r);
    PersistSized(s.disk, done);
    forall j | 0 <= j < |r| && !r[j].dirty
      ensures r[j].id in s'.disk && s'.disk[r[j].id] == r[j].data
    {
      if j < stop && es[j].dirty {
        PersistHolds(s.disk, done, j);
      } else {
        PersistElsewhere(s.disk, done, es[j].id);
      }
    }
  }
}
