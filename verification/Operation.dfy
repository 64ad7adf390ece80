/**
 One whole file system operation on the log and the cache: begin_op, any updates of blocks by
 bread, log_write and brelse, end_op and the commit.
 */
module Operation {
  import opened Basics
  import opened Blocks
  import opened BufferCache
  import opened CrashModel
  import opened WriteAheadLog

  datatype Change = Change(no: nat, data: Block)

  /** A block that an operation may log. */
  ghost predicate Target(g: Geometry, d: Disk, no: nat) {
    no < WORD_LIMIT && g.Home(no) in d && !g.InLog(g.Home(no))
  }

  /** The logical disk after the changes, in order. */
  function Changed(g: Geometry, view: Disk, changes: seq<Change>): Disk {
    if changes == [] then view
    else
      var last := changes[|changes| - 1];
      Changed(g, view, changes[..|changes| - 1])[g.Home(last.no) := last.data]
  }

  /** bread finds a buffer as long as the pinned blocks leave one over. */
  lemma BreadFits(log: Log, no: nat)
    requires log.Ready() && log.n < log.cache.buf.Length - 1
    ensures !Panics(log.cache.buf[..], log.Geo().Home(no))
  {
    var buf, pins, a := log.cache.buf[..], Homes(log.Geo(), log.block[..log.n], 0), log.Geo().Home(no);
    HomesCount(log.Geo(), log.block[..log.n], 0);
    if a in pins {
      assert PinnedAt(buf, a);
    } else {
      PanicsWhenFull(buf, log.cache.disk, log.cache.view, pins, a);
    }
  }

  /** bread, a change of the buffer, log_write and brelse: the logical block changes, and no disk block does. */
  method Update(log: Log, c: Change) returns (ok: bool)
    requires log.Ready() && Target(log.Geo(), log.cache.disk, c.no) && log.outstanding > 0
    requires log.n < log.cache.buf.Length - 1 && !log.Shared().LogPanics(log.size)
    modifies log`n, log.block, log.cache, log.cache.buf, log.cache.next, log.cache.prev
    ensures ok && log.Ready()
    ensures log.cache.disk == old(log.cache.disk) && log.cache.writes == old(log.cache.writes)
    ensures log.cache.view == old(log.cache.view)[log.Geo().Home(c.no) := c.data]
    ensures log.Shared() == old(log.Shared().Log(c.no))
  {
    hide ByRecency, Linked, Coherent, Pinned, Loggable, Distinct, Homes, Count;
    ghost var g, pins := log.Geo(), Homes(log.Geo(), log.block[..log.n], 0);
    BreadFits(log, c.no);
    var r := log.ReadOne(c.no, pins);
    if r.None? { return false; }
    var b := r.value;
    ghost var b0 := log.cache.buf[..];
    PinnedAfter(b0, pins, b, b0[b].(data := c.data));
    log.cache.Modify(b, c.data);
    ok := log.LogWrite(b);
    if !ok { return; }
    log.Drop(b, Homes(g, log.block[..log.n], 0));
  }

  lemma LoggedStays(g: Geometry, d: Disk, view: Disk, changes: seq<Change>, k: nat)
    requires k < |changes|
    ensures Changed(g, view, changes[..k + 1]) == Changed(g, view, changes[..k])[g.Home(changes[k].no) := changes[k].data]
  {
    assert changes[..k + 1][..k] == changes[..k];
  }

  /** A whole operation on a quiet system.  It never panics; the disk ends as the logical disk with all changes made, and
      gets there by exactly the block writes of one commit, which crash atomicity is about. */
  method Operate(log: Log, changes: seq<Change>) returns (ok: bool, ghost blocks: seq<nat>, ghost data: seq<Block>)
    requires log.Ready() && log.n == 0 && log.outstanding == 0 && !log.committing
    requires |changes| <= MAXOPBLOCKS && MAXOPBLOCKS + 1 < log.size && MAXOPBLOCKS < log.cache.buf.Length - 1
    requires forall k :: 0 <= k < |changes| ==> Target(log.Geo(), log.cache.disk, changes[k].no)
    modifies log, log.block, log.cache, log.cache.buf, log.cache.next, log.cache.prev
    ensures ok && log.Ready() && log.n == 0 && log.outstanding == 0 && !log.committing
    ensures log.cache.view == log.cache.disk
    ensures SameHome(log.Geo(), log.cache.disk, Changed(log.Geo(), old(log.cache.view), changes))
    ensures Startable(log.Geo(), old(log.cache.disk), blocks, data)
    ensures log.cache.writes == old(log.cache.writes) +
              if changes == [] then [] else CommitTrace(log.Geo(), old(log.cache.disk), blocks, data)
  {
    hide CommitTrace, ByRecency, Linked, Coherent, Pinned, Quiet, Loggable, Distinct, Homes, SameHome, Count;
    ghost var g, d, v, w := log.Geo(), log.cache.disk, log.cache.view, log.cache.writes;
    var admitted := log.BeginOp();
    assert admitted;
    var k := 0;
    while k < |changes|
      invariant 0 <= k <= |changes| && log.Ready() && log.outstanding == 1 && !log.committing && log.n <= k
      invariant log.cache.disk == d && log.cache.writes == w && log.cache.view == Changed(g, v, changes[..k])
      invariant k > 0 ==> log.n > 0
    {
      LoggedStays(g, d, v, changes, k);
      assert |log.Shared().blocks| == log.n;
      ok := Update(log, changes[k]);
      assert |log.Shared().blocks| == log.n;
      k := k + 1;
    }
    assert changes[..k] == changes;
    blocks, data := log.block[..log.n], DataOf(g, log.cache.view, log.block[..log.n]);
    var doCommit;
    ok, doCommit := log.EndOp();
    assert ok && doCommit;
    ok := log.Commit();
    log.EndCommit();
  }
}
