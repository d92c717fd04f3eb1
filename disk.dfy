/**
 * The backing store the cache drives. In the source it is a file read and
 * written at offset `block_id * BLOCK_SIZE`; here it is an abstract map from
 * block id to block contents whose reads and writes may fail for reasons the
 * cache cannot see. A ghost log records every attempted transfer, so that
 * callers can state which I/O an operation performs.
 */
module BackingStore {
  import opened CacheTypes

  /** One attempted transfer, successful or not. */
  datatype IoEvent = DiskRead(id: u64) | DiskWrite(id: u64, data: Block)

  class Disk {
    var contents: map<u64, Block>
    ghost var log: seq<IoEvent>

    constructor (initial: map<u64, Block>)
      ensures contents == initial && log == []
    {
      contents := initial;
      log := [];
    }

    /**
     * `disk_read`: fails when the block was never written (the file is too
     * short) and may fail at any time otherwise; on success it yields the
     * stored contents.
     */
    method Read(id: u64) returns (ok: bool, data: Block)
      modifies this`log
      ensures log == old(log) + [DiskRead(id)]
      ensures ok ==> id in contents && data == contents[id]
    {
      log := log + [DiskRead(id)];
      if id in contents {
        ok :| true;
      } else {
        ok := false;
      }
      data := if ok then contents[id] else [];
    }

    /**
     * `disk_write`: may fail; on success the block holds `data`, on failure
     * the store is left as it was.
     */
    method Write(id: u64, data: Block) returns (ok: bool)
      modifies this
      ensures log == old(log) + [DiskWrite(id, data)]
      ensures contents == if ok then old(contents)[id := data] else old(contents)
    {
      log := log + [DiskWrite(id, data)];
      ok :| true;
      if ok {
        contents := contents[id := data];
      }
    }
  }
}
