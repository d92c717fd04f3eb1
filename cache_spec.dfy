/**
 * A functional description of the cache engine. `Sys` is everything an
 * operation can affect: the cache's own state, the backing store's contents
 * and the log of attempted transfers. Each operation is a function of the
 * state before it and of what the backing store answered (whether the
 * eviction write-back succeeded, whether the read succeeded, which flush
 * write failed). The imperative engine is proved to follow these functions.
 */
module CacheSpec {
  import opened CacheTypes
  import opened BackingStore

  datatype Sys = Sys(cache: CacheState, disk: map<u64, Block>, log: seq<IoEvent>)

  /** What an operation leaves behind, what it returns, and (for a read) the bytes copied out. */
  datatype Reply = Reply(sys: Sys, status: int, data: Option<Block>)

  /** Every block on the backing store holds BLOCK_SIZE bytes. */
  predicate DiskSized(disk: map<u64, Block>) {
    forall id :: id in disk ==> |disk[id]| == BLOCK_SIZE
  }

  /** A clean resident block holds what the backing store holds for its id. */
  predicate CleanSynced(es: seq<Entry>, disk: map<u64, Block>) {
    forall i :: 0 <= i < |es| && !es[i].dirty ==> es[i].id in disk && disk[es[i].id] == es[i].data
  }

  /** The invariant of the cache together with its backing store. */
  predicate Inv(s: Sys) {
    WellFormed(s.cache) && DiskSized(s.disk) && CleanSynced(s.cache.entries, s.disk)
  }

  // ----- lookup (find_block) -----

  /** The first resident index holding `id`, if any. */
  function IndexOf(es: seq<Entry>, id: u64): (r: Option<nat>)
    ensures r.Some? ==> r.value < |es| && es[r.value].id == id
    ensures r.Some? ==> forall j :: 0 <= j < r.value ==> es[j].id != id
    ensures r.None? ==> forall j :: 0 <= j < |es| ==> es[j].id != id
    decreases |es|
  {
    if es == [] then None
    else if es[0].id == id then Some(0)
    else match IndexOf(es[1..], id)
      case None => None
      case Some(k) => Some(k + 1)
  }

  /** The resident entry for `id`, if any. */
  function Lookup(es: seq<Entry>, id: u64): (r: Option<Entry>)
    ensures r.None? <==> forall j :: 0 <= j < |es| ==> es[j].id != id
    ensures UniqueIds(es) ==> forall j :: 0 <= j < |es| && es[j].id == id ==> r == Some(es[j])
  {
    match IndexOf(es, id)
    case None => None
    case Some(i) => Some(es[i])
  }

  // ----- replacement (evict_block) -----

  /** The first index of minimal `lastAccess`, found by a left-to-right scan. */
  function LruIndex(es: seq<Entry>): (k: nat)
    requires |es| > 0
    ensures k < |es|
    ensures forall j :: 0 <= j < |es| ==> es[k].lastAccess <= es[j].lastAccess
    ensures forall j :: 0 <= j < k ==> es[k].lastAccess < es[j].lastAccess
    decreases |es|
  {
    if |es| == 1 then 0
    else
      var k := LruIndex(es[..|es| - 1]);
      if es[|es| - 1].lastAccess < es[k].lastAccess then |es| - 1 else k
  }

  /** Removal of index `k`: the later entries move down by one, in order. */
  function RemoveAt(es: seq<Entry>, k: nat): (r: seq<Entry>)
    requires k < |es|
    ensures |r| == |es| - 1
    ensures forall j :: 0 <= j < k ==> r[j] == es[j]
    ensures forall j :: k <= j < |r| ==> r[j] == es[j + 1]
  {
    es[..k] + es[k + 1..]
  }

  /**
   * `evict_block` on a non-empty cache: the least recently used entry is
   * written back if dirty (the outcome `writeOk` of that write is ignored)
   * and removed.
   */
  function EvictStep(s: Sys, writeOk: bool): (r: Sys)
    requires |s.cache.entries| > 0
    ensures |r.cache.entries| == |s.cache.entries| - 1
    ensures r.cache.(entries := s.cache.entries) == s.cache
    ensures s.disk.Keys <= r.disk.Keys
  {
    var k := LruIndex(s.cache.entries);
    var v := s.cache.entries[k];
    Sys(s.cache.(entries := RemoveAt(s.cache.entries, k)),
        if v.dirty && writeOk then s.disk[v.id := v.data] else s.disk,
        if v.dirty then s.log + [DiskWrite(v.id, v.data)] else s.log)
  }

  /** A miss evicts exactly when the cache is full. */
  function MakeRoom(s: Sys, writeOk: bool): (r: Sys)
    ensures |s.cache.entries| <= MAX_CACHE_BLOCKS ==> |r.cache.entries| < MAX_CACHE_BLOCKS
    ensures |r.cache.entries| <= |s.cache.entries|
    ensures r.cache.(entries := s.cache.entries) == s.cache
  {
    if |s.cache.entries| >= MAX_CACHE_BLOCKS then EvictStep(s, writeOk) else s
  }

  // ----- cache_read -----

  /**
   * `cache_read` with a non-null buffer. `writeOk` is the outcome of the
   * eviction write-back (if one happens), `readOk` whether the backing store
   * would deliver the block.
   */
  function ReadStep(s: Sys, id: u64, writeOk: bool, readOk: bool): (r: Reply)
    ensures IsStatus(r.status)
    ensures r.status == CACHE_SUCCESS <==> r.data.Some?
    ensures r.sys.cache.accessCounter >= s.cache.accessCounter
  {
    var c := s.cache;
    match IndexOf(c.entries, id)
    case Some(i) =>
      var t := c.accessCounter + 1;
      var c' := c.(entries := c.entries[i := c.entries[i].(lastAccess := t)],
                   accessCounter := t, hits := c.hits + 1);
      Reply(s.(cache := c'), CACHE_SUCCESS, Some(c.entries[i].data))
    case None =>
      var s1 := MakeRoom(s.(cache := c.(misses := c.misses + 1)), writeOk);
      var s2 := s1.(log := s1.log + [DiskRead(id)]);
      if readOk && id in s2.disk then
        var t := s2.cache.accessCounter + 1;
        var e := Entry(id, s2.disk[id], t, false);
        Reply(s2.(cache := s2.cache.(entries := s2.cache.entries + [e], accessCounter := t)),
              CACHE_SUCCESS, Some(s2.disk[id]))
      else
        Reply(s2, CACHE_ERROR, None)
  }

  // ----- cache_write -----

  /** `cache_write` with a non-null buffer holding `data`; it always succeeds. */
  function WriteStep(s: Sys, id: u64, data: Block, writeOk: bool): (r: Sys)
    ensures r.cache.accessCounter == s.cache.accessCounter + 1
    ensures r.cache.hits == s.cache.hits && r.cache.misses == s.cache.misses
    ensures |r.cache.entries| > 0
  {
    var c := s.cache;
    match IndexOf(c.entries, id)
    case Some(i) =>
      var t := c.accessCounter + 1;
      s.(cache := c.(entries := c.entries[i := c.entries[i].(data := data, lastAccess := t, dirty := true)],
                     accessCounter := t))
    case None =>
      var s1 := MakeRoom(s, writeOk);
      var t := s1.cache.accessCounter + 1;
      s1.(cache := s1.cache.(entries := s1.cache.entries + [Entry(id, data, t, true)], accessCounter := t))
  }

  // ----- cache_flush -----

  /** The same entries with their dirty flags cleared. */
  function MarkClean(es: seq<Entry>): (r: seq<Entry>)
    ensures |r| == |es|
    ensures forall j :: 0 <= j < |r| ==> !r[j].dirty && r[j].(dirty := es[j].dirty) == es[j]
  {
    seq(|es|, j requires 0 <= j < |es| => es[j].(dirty := false))
  }

  /** The backing store after every dirty entry of `es` was written, in index order. */
  function Persist(disk: map<u64, Block>, es: seq<Entry>): (d: map<u64, Block>)
    ensures disk.Keys <= d.Keys
    decreases |es|
  {
    if es == [] then disk
    else
      var d := Persist(disk, es[..|es| - 1]);
      var e := es[|es| - 1];
      if e.dirty then d[e.id := e.data] else d
  }

  /** The writes issued for the dirty entries of `es`, in index order. */
  function WriteLog(es: seq<Entry>): (l: seq<IoEvent>)
    ensures |l| <= |es|
    ensures forall k :: 0 <= k < |l| ==> l[k].DiskWrite?
    decreases |es|
  {
    if es == [] then []
    else
      var e := es[|es| - 1];
      WriteLog(es[..|es| - 1]) + if e.dirty then [DiskWrite(e.id, e.data)] else []
  }

  /**
   * The place where a flush may stop: the end of the entries (success) or a
   * dirty entry whose write failed.
   */
  predicate FlushStop(es: seq<Entry>, stop: nat) {
    stop <= |es| && (stop < |es| ==> es[stop].dirty)
  }

  /** `cache_flush`, when the first failing write (if any) is at index `stop`. */
  function FlushStep(s: Sys, stop: nat): (r: Reply)
    requires FlushStop(s.cache.entries, stop)
    ensures IsStatus(r.status) && r.data == None
    ensures r.status == CACHE_SUCCESS <==> stop == |s.cache.entries|
    ensures |r.sys.cache.entries| == |s.cache.entries|
  {
    var es := s.cache.entries;
    if stop == |es| then
      Reply(Sys(s.cache.(entries := MarkClean(es)), Persist(s.disk, es), s.log + WriteLog(es)),
            CACHE_SUCCESS, None)
    else
      Reply(Sys(s.cache.(entries := MarkClean(es[..stop]) + es[stop..]),
                Persist(s.disk, es[..stop]),
                s.log + WriteLog(es[..stop]) + [DiskWrite(es[stop].id, es[stop].data)]),
            CACHE_ERROR, None)
  }

  // ----- the contents a client observes -----

  /** What a client would read for `id`: the cached copy if resident, else the stored one. */
  function View(s: Sys, id: u64): (r: Option<Block>)
    ensures r.None? <==> id !in s.disk && forall j :: 0 <= j < |s.cache.entries| ==> s.cache.entries[j].id != id
  {
    match Lookup(s.cache.entries, id)
    case Some(e) => Some(e.data)
    case None => if id in s.disk then Some(s.disk[id]) else None
  }
}
