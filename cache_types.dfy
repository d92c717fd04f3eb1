/**
 * The state declared by the cache header: the status codes, the two size
 * constants, one cached block (`cache_block_t`) and the counters of the cache
 * (`cache_t`), together with the structural invariants every resident
 * sequence of blocks keeps.
 */
module CacheTypes {

  /** Status codes returned by every operation. */
  const CACHE_SUCCESS: int := 0
  const CACHE_ERROR: int := -1

  /** Capacity of the `blocks` array and size of one block in bytes. */
  const MAX_CACHE_BLOCKS: nat := 1024
  const BLOCK_SIZE: nat := 4096

  newtype byte = x: int | 0 <= x < 0x100
  newtype u64 = x: int | 0 <= x < 0x1_0000_0000_0000_0000

  /** The contents of one block; a well-formed block has BLOCK_SIZE bytes. */
  type Block = seq<byte>

  datatype Option<T> = None | Some(value: T)

  /** `cache_block_t`: one resident block. */
  datatype Entry = Entry(id: u64, data: Block, lastAccess: nat, dirty: bool)

  /**
   * The fields of `cache_t`: `entries` stands for `blocks[0..num_blocks)`;
   * the counters are unbounded (the 64-bit wrap-around is not modelled).
   */
  datatype CacheState = CacheState(entries: seq<Entry>, accessCounter: nat, hits: nat, misses: nat)

  /** The only values an operation returns. */
  predicate IsStatus(code: int) {
    code == CACHE_SUCCESS || code == CACHE_ERROR
  }

  /** Every resident block holds exactly BLOCK_SIZE bytes. */
  predicate WellSized(es: seq<Entry>) {
    forall i :: 0 <= i < |es| ==> |es[i].data| == BLOCK_SIZE
  }

  /** No block id is resident twice. */
  predicate UniqueIds(es: seq<Entry>) {
    forall i, j :: 0 <= i < j < |es| ==> es[i].id != es[j].id
  }

  /** Access stamps are pairwise distinct ... */
  predicate DistinctStamps(es: seq<Entry>) {
    forall i, j :: 0 <= i < j < |es| ==> es[i].lastAccess != es[j].lastAccess
  }

  /** ... and none is newer than the access counter. */
  predicate StampsBelow(es: seq<Entry>, counter: nat) {
    forall i :: 0 <= i < |es| ==> es[i].lastAccess <= counter
  }

  /** The cache-local part of the invariant (everything but the disk). */
  predicate WellFormed(c: CacheState) {
    && |c.entries| <= MAX_CACHE_BLOCKS
    && WellSized(c.entries)
    && UniqueIds(c.entries)
    && DistinctStamps(c.entries)
    && StampsBelow(c.entries, c.accessCounter)
  }

  /** The state right after `cache_init`: no blocks, all counters zero. */
  function Empty(): (c: CacheState)
    ensures WellFormed(c)
    ensures c.entries == [] && c.accessCounter == 0 && c.hits == 0 && c.misses == 0
  {
    CacheState([], 0, 0, 0)
  }
}
