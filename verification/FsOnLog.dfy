/**
 The file system's transaction and the log's are the same: what log_write does to the logical disk
 of FileSystem it does to the cache and the header of WriteAheadLog, and a commit makes it durable.
 */
module FsOnLog {
  import opened Basics
  import opened Blocks
  import opened FsModel
  import opened FileModel
  import opened FileSystem
  import opened Durability
  import O = Operation
  import W = WriteAheadLog
  import C = CrashModel
  import B = BufferCache

  /** The log below fs: its cache shows the disk of fs, the physical disk is still that of the begin_op, and it has the same
      blocks, the same room and the same state of being in an operation. */
  ghost predicate Below(fs: Fs, log: W.Log)
    reads fs, log, log.cache, log.cache.buf, log.cache.next, log.cache.prev, log.block
  {
    && log.Ready() && Recorded(fs.start, fs.disk, fs.logged)
    && Holds(log.Geo(), log.cache.disk, fs.start) && Holds(log.Geo(), log.cache.view, fs.disk)
    && Elements(log.block[..log.n]) == fs.logged <= fs.disk.Keys
    && log.size == fs.logsize && (fs.open <==> log.outstanding > 0)
  }

  lemma SameCount(fs: Fs, log: W.Log)
    requires Below(fs, log)
    ensures |fs.logged| == log.n && (fs.Stuck() <==> log.Shared().LogPanics(log.size))
  {
    DistinctSize(log.block[..log.n]);
  }

  lemma StillBelow(g: C.Geometry, view: B.Disk, disk: Store, b: nat, data: Block, blocks: seq<nat>, blocks': seq<nat>, logged: set<nat>)
    requires Holds(g, view, disk) && Elements(blocks) == logged && b in disk
    requires blocks' == if b in blocks then blocks else blocks + [b]
    ensures Holds(g, view[g.Home(b) := data], disk[b := data]) && Elements(blocks') == logged + {b}
  {
  }

  /** log_write of the file system, done by bread, a change, log_write and brelse on the cache and the log. */
  method LogWrite(fs: Fs, log: W.Log, b: nat, data: Block) returns (ok: bool)
    requires Below(fs, log) && b in fs.disk && O.Target(log.Geo(), log.cache.disk, b) && log.n < log.cache.buf.Length - 1
    modifies fs`disk, fs`logged, log`n, log.block, log.cache, log.cache.buf, log.cache.next, log.cache.prev
    ensures Below(fs, log) && ok == !old(fs.Stuck())
    ensures if ok then fs.disk == old(fs.disk)[b := data] && fs.logged == old(fs.logged) + {b}
            else fs.disk == old(fs.disk) && fs.logged == old(fs.logged)
    ensures log.cache.disk == old(log.cache.disk) && log.cache.writes == old(log.cache.writes)
  {
    hide B.ByRecency, B.Linked, B.Coherent, W.Quiet, W.Pinned, C.Loggable, C.Distinct, W.Homes, C.Count, Holds, Elements, Recorded;
    ghost var blocks := log.block[..log.n];
    SameCount(fs, log);
    StillBelow(log.Geo(), log.cache.view, fs.disk, b, data, blocks, if b in blocks then blocks else blocks + [b], fs.logged);
    ok := fs.LogWrite(b, data);
    if ok {
      var done := O.Update(log, O.Change(b, data));
      assert done;
      assert log.Shared().blocks == log.block[..log.n];
    }
  }

  /** What the log is about to commit is the transaction of the file system. */
  lemma OneTransaction(fs: Fs, log: W.Log)
    requires Below(fs, log)
    ensures var blocks := log.block[..log.n];
            Transaction(log.Geo(), log.cache.disk, fs.start, fs.disk, blocks, W.DataOf(log.Geo(), log.cache.view, blocks))
  {
    var g, blocks := log.Geo(), log.block[..log.n];
    assert Elements(blocks) == set x | x in blocks;
    forall i | 0 <= i < |blocks| ensures blocks[i] in fs.disk { assert blocks[i] in Elements(blocks); }
  }

  /** After a crash at any block write of the commit and any interrupted recoveries, the file system is before or after. */
  ghost predicate Atomic(g: C.Geometry, d: B.Disk, blocks: seq<nat>, data: seq<Block>, before: Store, after: Store)
    requires C.Startable(g, d, blocks, data)
  {
    forall k: nat, chain: seq<B.Disk> ::
      k <= 2 * |blocks| + 2 && |chain| > 0 && C.CrashChain(g, chain) && chain[0] == C.CommitPoint(g, d, blocks, data, k) ==>
        Seen(g, C.Recover(g, chain[|chain| - 1]), before) == if k <= |blocks| then before else after
  }

  lemma TransactionIsAtomic(g: C.Geometry, d: B.Disk, blocks: seq<nat>, data: seq<Block>, before: Store, after: Store)
    requires Transaction(g, d, before, after, blocks, data)
    ensures C.Startable(g, d, blocks, data) && Atomic(g, d, blocks, data, before, after)
  {
    forall k: nat, chain: seq<B.Disk> |
      k <= 2 * |blocks| + 2 && |chain| > 0 && C.CrashChain(g, chain) && chain[0] == C.CommitPoint(g, d, blocks, data, k)
      ensures Seen(g, C.Recover(g, chain[|chain| - 1]), before) == if k <= |blocks| then before else after
    {
      hide *;
      StoreIsAtomic(g, d, before, after, blocks, data, k, chain);
    }
  }

  /** commit after the operations of the file system: its block writes are atomic for the store, and end with it on disk. */
  method Commit(fs: Fs, log: W.Log) returns (ok: bool)
    requires Below(fs, log) && log.n > 0
    modifies log`n, log.cache, log.cache.buf, log.cache.next, log.cache.prev
    ensures log.outstanding == old(log.outstanding) && log.committing == old(log.committing)
    ensures ok <==> old(log.n) < log.cache.buf.Length - 1
    ensures ok ==>
              var g, d, blocks := log.Geo(), old(log.cache.disk), old(log.block[..log.n]);
              var data := W.DataOf(g, old(log.cache.view), blocks);
              && C.Startable(g, d, blocks, data)
              && log.cache.writes == old(log.cache.writes) + C.CommitTrace(g, d, blocks, data)
              && Atomic(g, d, blocks, data, fs.start, fs.disk) && AtRest(fs, log)
  {
    hide B.ByRecency, B.Linked, B.Coherent, W.Quiet, W.Pinned, C.Loggable, C.Distinct, W.Homes, C.Count, C.CommitTrace, Atomic,
         Holds, Elements, Recorded, Transaction, C.SameHome;
    ghost var g, d, view, blocks := log.Geo(), log.cache.disk, log.cache.view, log.block[..log.n];
    ghost var data := W.DataOf(g, view, blocks);
    OneTransaction(fs, log);
    TransactionIsAtomic(g, d, blocks, data, fs.start, fs.disk);
    ok := log.Commit();
    if ok { HoldsAfter(g, view, log.cache.disk, fs.disk); }
  }

  lemma HoldsAfter(g: C.Geometry, view: B.Disk, disk: B.Disk, s: Store)
    requires Holds(g, view, s) && C.SameHome(g, disk, view)
    ensures Holds(g, disk, s)
  {
  }

  /** After a commit the disk of the file system is on disk and in the cache, and the log is empty. */
  ghost predicate AtRest(fs: Fs, log: W.Log)
    reads fs, log, log.cache, log.cache.buf, log.cache.next, log.cache.prev, log.block
  {
    && log.Ready() && log.n == 0 && log.size == fs.logsize
    && Holds(log.Geo(), log.cache.disk, fs.disk) && Holds(log.Geo(), log.cache.view, fs.disk)
  }

  /** begin_op of the next operation, for the file system and the log: a new transaction starts from what the last commit
      has left, so that the commits of the chunks of a filewrite follow each other. */
  method BeginOp(fs: Fs, log: W.Log)
    requires AtRest(fs, log) && log.outstanding == 0 && !log.committing
    modifies fs`logged, fs`start, fs`open, log`outstanding
    ensures Below(fs, log) && fs.open && fs.logged == {} && fs.start == fs.disk
    ensures log.cache.disk == old(log.cache.disk)
  {
    hide B.ByRecency, B.Linked, B.Coherent, W.Quiet, W.Pinned, C.Loggable, C.Distinct, W.Homes, C.Count;
    var admitted := log.BeginOp();
    assert admitted;
    fs.logged, fs.start, fs.open := {}, fs.disk, true;
    assert Elements(log.block[..log.n]) == {};
  }
}
