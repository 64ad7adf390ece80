/**
 log.c: the in-memory log and its commit, running on the buffer cache.
 */
module WriteAheadLog {
  import opened Basics
  import opened Blocks
  import opened BufferCache
  import opened CrashModel
  import GroupCommit

  // ---- which buffers are pinned ----

  /** Nobody holds or waits for a buffer. */
  predicate Quiet(buf: seq<Buf>) {
    forall i :: 0 < i < |buf| ==> !buf[i].locked && buf[i].refcnt == 0
  }

  predicate PinnedAt(buf: seq<Buf>, a: Addr) {
    exists i :: 0 < i < |buf| && buf[i].dirty && buf[i].at == a
  }

  /** Exactly the blocks of pins have B_DIRTY set. */
  ghost predicate Pinned(buf: seq<Buf>, pins: set<Addr>) {
    && (forall i :: 0 < i < |buf| && buf[i].dirty ==> buf[i].at in pins)
    && (forall a :: a in pins ==> PinnedAt(buf, a))
  }

  /** The dirty ones among the first k buffers: how many, and their blocks. */
  function DirtyCount(buf: seq<Buf>, k: nat): (n: nat)
    requires k < |buf|
    ensures n <= k
  {
    if k == 0 then 0 else if buf[k].dirty then DirtyCount(buf, k - 1) + 1 else DirtyCount(buf, k - 1)
  }

  lemma {:induction false} AllDirty(buf: seq<Buf>, k: nat)
    requires k < |buf|
    ensures DirtyCount(buf, k) == k <==> forall i :: 0 < i <= k ==> buf[i].dirty
  {
    if k > 0 { AllDirty(buf, k - 1); }
  }

  function DirtyBlocks(buf: seq<Buf>, k: nat): (s: set<Addr>)
    requires k < |buf|
  {
    if k == 0 then {} else if buf[k].dirty then DirtyBlocks(buf, k - 1) + {buf[k].at} else DirtyBlocks(buf, k - 1)
  }

  lemma {:induction false} DirtyBlockAt(buf: seq<Buf>, k: nat, i: nat)
    requires 0 < i <= k < |buf| && buf[i].dirty
    ensures buf[i].at in DirtyBlocks(buf, k)
  {
    if i < k { DirtyBlockAt(buf, k - 1, i); }
  }

  lemma {:induction false} DirtyBlocksWithin(buf: seq<Buf>, k: nat, pins: set<Addr>)
    requires k < |buf| && forall i :: 0 < i < |buf| && buf[i].dirty ==> buf[i].at in pins
    ensures DirtyBlocks(buf, k) <= pins
  {
    if k > 0 { DirtyBlocksWithin(buf, k - 1, pins); }
  }

  /** Two buffers do not show the same pinned block. */
  predicate DirtyApart(buf: seq<Buf>) {
    forall i, j :: 0 < i < j < |buf| && buf[i].dirty ==> buf[i].at != buf[j].at
  }

  lemma {:induction false} DirtyBlockNew(buf: seq<Buf>, k: nat, m: nat)
    requires k < m < |buf| && DirtyApart(buf)
    ensures buf[m].at !in DirtyBlocks(buf, k)
  {
    if k > 0 { DirtyBlockNew(buf, k - 1, m); }
  }

  lemma {:induction false} DirtyCounted(buf: seq<Buf>, k: nat)
    requires k < |buf| && DirtyApart(buf)
    ensures |DirtyBlocks(buf, k)| == DirtyCount(buf, k)
  {
    if k > 0 {
      DirtyCounted(buf, k - 1);
      DirtyBlockNew(buf, k - 1, k);
      hide DirtyApart;
    }
  }

  lemma DirtyDistinct(buf: seq<Buf>, disk: Disk, view: Disk)
    requires Coherent(buf, disk, view)
    ensures DirtyApart(buf)
  {
    forall i, j | 0 < i < j < |buf| && buf[i].dirty ensures buf[i].at != buf[j].at {
      assert BufOk(buf[i], disk, view);
    }
  }

  lemma PinsAreDirtyBlocks(buf: seq<Buf>, pins: set<Addr>)
    requires Pinned(buf, pins) && 0 < |buf|
    ensures pins == DirtyBlocks(buf, |buf| - 1)
  {
    DirtyBlocksWithin(buf, |buf| - 1, pins);
    forall a | a in pins ensures a in DirtyBlocks(buf, |buf| - 1) {
      var i: nat :| 0 < i < |buf| && buf[i].dirty && buf[i].at == a;
      DirtyBlockAt(buf, |buf| - 1, i);
    }
  }

  /** The pinned blocks are as many as the dirty buffers. */
  lemma PinsAreDirty(buf: seq<Buf>, disk: Disk, view: Disk, pins: set<Addr>)
    requires Coherent(buf, disk, view) && Pinned(buf, pins) && 0 < |buf|
    ensures |pins| == DirtyCount(buf, |buf| - 1)
  {
    hide *;
    PinsAreDirtyBlocks(buf, pins);
    DirtyDistinct(buf, disk, view);
    DirtyCounted(buf, |buf| - 1);
  }

  /** With nobody holding a buffer, bget of an unpinned block panics exactly when every buffer is pinned. */
  lemma PanicsWhenFull(buf: seq<Buf>, disk: Disk, view: Disk, pins: set<Addr>, a: Addr)
    requires Coherent(buf, disk, view) && Quiet(buf) && Pinned(buf, pins) && 0 < |buf| && a !in pins
    ensures |pins| <= |buf| - 1
    ensures Panics(buf, a) <==> |pins| == |buf| - 1
  {
    var n := |buf| - 1;
    PinsAreDirty(buf, disk, view, pins);
    AllDirty(buf, n);
    assert forall i :: 0 < i <= n ==> (buf[i].dirty <==> !buf[i].Idle());
    if forall i :: 0 < i <= n ==> buf[i].dirty {
      assert !Cached(buf, a);
    }
  }

  lemma {:induction false} AllButOneDirty(buf: seq<Buf>, k: nat, x: nat)
    requires k < |buf| && forall i :: 0 < i <= k && i != x ==> buf[i].dirty
    ensures DirtyCount(buf, k) >= k - 1
    ensures k < x ==> DirtyCount(buf, k) == k
  {
    if k > 0 { AllButOneDirty(buf, k - 1, x); }
  }

  /** While x is held, there is room for one more block that is pinned, or else any. */
  lemma SecondFits(buf: seq<Buf>, disk: Disk, view: Disk, pins: set<Addr>, x: nat, held: seq<Buf>, c: Addr)
    requires Coherent(buf, disk, view) && Quiet(buf) && Pinned(buf, pins)
    requires 0 < x < |buf| == |held| && forall i :: 0 < i < |buf| && i != x ==> held[i] == buf[i]
    requires held[x].at != c && !buf[x].dirty && (c in pins || |pins| + 2 <= |buf| - 1)
    ensures !Panics(held, c)
  {
    if c in pins {
      var i :| 0 < i < |buf| && buf[i].dirty && buf[i].at == c;
      assert held[i].at == c;
    } else {
      var n := |buf| - 1;
      PinsAreDirty(buf, disk, view, pins);
      if forall i :: 0 < i < |held| ==> !held[i].Idle() {
        forall i | 0 < i <= n && i != x ensures buf[i].dirty { assert !held[i].Idle(); }
        AllButOneDirty(buf, n, x);
      }
    }
  }

  /** How many of the first k buffers somebody holds that are not pinned. */
  function HeldCount(buf: seq<Buf>, k: nat): (n: nat)
    requires k < |buf|
  {
    if k == 0 then 0 else HeldCount(buf, k - 1) + if buf[k].refcnt > 0 && !buf[k].dirty then 1 else 0
  }

  lemma {:induction false} AllBusy(buf: seq<Buf>, k: nat)
    requires k < |buf|
    ensures DirtyCount(buf, k) + HeldCount(buf, k) <= k
    ensures DirtyCount(buf, k) + HeldCount(buf, k) == k <==> forall i :: 0 < i <= k ==> !buf[i].Idle()
  {
    if k > 0 { AllBusy(buf, k - 1); }
  }

  /** Whoever holds buffers: bget of a block that is not cached panics exactly when the pinned blocks and the other buffers
      that are held are as many as there are buffers. */
  lemma PanicsWhenBusy(buf: seq<Buf>, disk: Disk, view: Disk, pins: set<Addr>, a: Addr)
    requires Coherent(buf, disk, view) && Pinned(buf, pins) && 0 < |buf|
    ensures |pins| + HeldCount(buf, |buf| - 1) <= |buf| - 1
    ensures Panics(buf, a) <==> !Cached(buf, a) && |pins| + HeldCount(buf, |buf| - 1) == |buf| - 1
  {
    hide *;
    PinsAreDirty(buf, disk, view, pins);
    AllBusy(buf, |buf| - 1);
    PanicsIs(buf, a);
  }

  lemma PanicsIs(buf: seq<Buf>, a: Addr)
    requires 0 < |buf|
    ensures Panics(buf, a) <==> !Cached(buf, a) && forall i :: 0 < i <= |buf| - 1 ==> !buf[i].Idle()
  {
    hide Cached;
  }

  const NBUF: nat := 3 * MAXOPBLOCKS

  /** bmap and itrunc hold the indirect block while they get one more buffer, for the bitmap or a new block, and no operation
      holds more than two.  So with operations of at most quota blocks bget finds a buffer while the holders, each with one,
      are fewer than what Bound(quota) leaves of the NBUF buffers: up to five for the seven blocks of filewrite. */
  lemma SecondBufferFound(buf: seq<Buf>, disk: Disk, view: Disk, pins: set<Addr>, a: Addr, quota: nat, holders: nat)
    requires Coherent(buf, disk, view) && Pinned(buf, pins) && |buf| == NBUF + 1
    requires |pins| <= GroupCommit.Bound(quota) && HeldCount(buf, NBUF) <= holders && GroupCommit.Bound(quota) + holders < NBUF
    ensures !Panics(buf, a)
  {
    PanicsWhenBusy(buf, disk, view, pins, a);
  }

  lemma PinnedAfter(buf: seq<Buf>, pins: set<Addr>, b: nat, c: Buf)
    requires Pinned(buf, pins) && 0 < b < |buf|
    requires if buf[b].dirty then c.at == buf[b].at && c.dirty else !c.dirty
    ensures Pinned(buf[b := c], pins)
  {
    forall a | a in pins ensures PinnedAt(buf[b := c], a) {
      var i :| 0 < i < |buf| && buf[i].dirty && buf[i].at == a;
      assert buf[b := c][i].dirty && buf[b := c][i].at == a;
    }
  }

  lemma UnpinnedAfter(buf: seq<Buf>, disk: Disk, view: Disk, pins: set<Addr>, b: nat, c: Buf)
    requires Coherent(buf, disk, view) && Pinned(buf, pins) && 0 < b < |buf| && buf[b].at.dev != 0
    requires !c.dirty && c.at == buf[b].at
    ensures Pinned(buf[b := c], pins - {c.at})
  {
    forall a | a in pins - {c.at} ensures PinnedAt(buf[b := c], a) {
      var i :| 0 < i < |buf| && buf[i].dirty && buf[i].at == a;
      assert buf[b := c][i].dirty && buf[b := c][i].at == a;
    }
    forall i | 0 < i < |buf| && i != b && buf[i].dirty ensures buf[i].at in pins - {c.at} {
      assert i < b || b < i;
    }
  }

  class Log {
    const cache: Cache
    const dev: nat
    const start: nat
    const size: nat
    var outstanding: nat
    var committing: bool
    var n: nat               // lh.n
    const block: array<nat>  // lh.block

    constructor (cache: Cache, dev: nat, start: nat, size: nat)
      ensures this.cache == cache && this.dev == dev && this.start == start && this.size == size
      ensures fresh(block) && block.Length == LOGSIZE
      ensures n == 0 && outstanding == 0 && !committing
    {
      this.cache, this.dev, this.start, this.size := cache, dev, start, size;
      n, outstanding, committing := 0, 0, false;
      block := new nat[LOGSIZE](_ => 0);
    }

    function Geo(): Geometry {
      Geometry(dev, start, size)
    }

    ghost function Repr(): set<object> {
      {this, cache, cache.buf, cache.next, cache.prev, block}
    }

    /** What every method of the log needs of the objects it works on. */
    ghost predicate Sound()
      reads Repr()
    {
      && cache.Valid() && cache.buf.Length >= 3 && cache.view.Keys == cache.disk.Keys
      && Geo().On(cache.disk)
      && block.Length == LOGSIZE && n <= LOGSIZE
      && block != cache.next && block != cache.prev
    }

    /** bread of a block that nobody uses. */
    method ReadOne(no: nat, ghost pins: set<Addr>) returns (r: Option<nat>)
      requires Sound() && Pinned(cache.buf[..], pins) && Addr(dev, no) in cache.disk
      requires forall i :: 0 < i < cache.buf.Length && cache.buf[i].at == Addr(dev, no) ==>
                 !cache.buf[i].locked && cache.buf[i].refcnt == 0
      modifies cache.buf
      ensures Sound() && Pinned(cache.buf[..], pins)
      ensures r.None? <==> Panics(old(cache.buf[..]), Addr(dev, no))
      ensures r.None? ==> cache.buf[..] == old(cache.buf[..])
      ensures r.Some? ==>
                var b := r.value;
                && 0 < b < cache.buf.Length && old(cache.buf[b].refcnt) == 0
                && cache.buf[..] == old(cache.buf[..])[b := cache.buf[b]]
                && cache.buf[b] == Held(Addr(dev, no), cache.buf[b].dirty, cache.view)
                && cache.buf[b].dirty == old(cache.buf[b].dirty)
    {
      ghost var b0 := cache.buf[..];
      r := cache.Read(dev, no);
      if r.Some? {
        PinnedAfter(b0, pins, r.value, cache.buf[r.value]);
      }
    }

    /**
     bread of first and then of second, with no other buffer held.  It fails
     exactly when the pinned blocks fill the whole cache.
     */
    method ReadTwo(first: nat, second: nat, ghost pins: set<Addr>) returns (ok: bool, x: nat, y: nat)
      requires Sound() && Quiet(cache.buf[..]) && Pinned(cache.buf[..], pins)
      requires first != second && Addr(dev, first) in cache.disk && Addr(dev, second) in cache.disk
      requires Addr(dev, first) !in pins
      requires Addr(dev, second) in pins || |pins| + 2 <= cache.buf.Length - 1
      modifies cache.buf
      ensures Sound() && Pinned(cache.buf[..], pins)
      ensures ok <==> |pins| < cache.buf.Length - 1
      ensures ok ==> HoldsTwo(cache.buf[..], cache.view, x, y, Addr(dev, first), Addr(dev, second))
    {
      hide Linked, Coherent, Pinned, BufOk, DirtyCount;
      ghost var b0 := cache.buf[..];
      PanicsWhenFull(b0, cache.disk, cache.view, pins, Addr(dev, first));
      var r := ReadOne(first, pins);
      if r == None { return false, 0, 0; }
      x := r.value;
      SecondFits(b0, cache.disk, cache.view, pins, x, cache.buf[..], Addr(dev, second));
      r := ReadOne(second, pins);
      return true, x, r.value;
    }

    /** Changes a held buffer and writes it with bwrite. */
    method PutBlock(to: nat, data: Block, ghost pins: set<Addr>)
      requires Sound() && Pinned(cache.buf[..], pins)
      requires 0 < to < cache.buf.Length && cache.buf[to].locked && cache.buf[to].valid
      modifies cache`disk, cache`view, cache`writes, cache.buf
      ensures Sound() && Pinned(cache.buf[..], pins - {cache.buf[to].at})
      ensures cache.buf[..] == old(cache.buf[..])[to := old(cache.buf[to]).(data := data, dirty := false)]
      ensures cache.disk == old(cache.disk)[cache.buf[to].at := data]
      ensures cache.view == old(cache.view)[cache.buf[to].at := data]
      ensures cache.writes == old(cache.writes) + [cache.disk]
    {
      ghost var b0 := cache.buf[..];
      assert BufOk(b0[to], cache.disk, cache.view);
      UnpinnedAfter(b0, cache.disk, cache.view, pins, to, b0[to].(data := data, dirty := false));
      cache.Modify(to, data);
      cache.Write(to);
      assert cache.buf[..] == b0[to := b0[to].(data := data, dirty := false)];
    }

    /** brelse of a buffer that is pinned or as it is on disk. */
    method Drop(b: nat, ghost pins: set<Addr>)
      requires Sound() && Pinned(cache.buf[..], pins)
      requires 0 < b < cache.buf.Length && cache.buf[b].locked && cache.buf[b].refcnt == 1
      requires cache.buf[b].dirty || cache.buf[b].data == cache.disk[cache.buf[b].at]
      modifies cache`ring, cache`place, cache`moves, cache.buf, cache.next, cache.prev
      ensures Sound() && Pinned(cache.buf[..], pins)
      ensures cache.buf[..] == old(cache.buf[..])[b := old(cache.buf[b]).(locked := false, refcnt := 0)]
    {
      PinnedAfter(cache.buf[..], pins, b, cache.buf[b].(locked := false, refcnt := 0));
      cache.Release(b);
    }

    /** Two brelse of the only buffers held. */
    method DropTwo(x: nat, y: nat, ghost pins: set<Addr>)
      requires Sound() && Pinned(cache.buf[..], pins) && OnlyTwo(cache.buf[..], x, y)
      requires cache.buf[x].at in cache.disk && cache.buf[y].at in cache.disk
      requires cache.buf[x].dirty || cache.buf[x].data == cache.disk[cache.buf[x].at]
      requires cache.buf[y].dirty || cache.buf[y].data == cache.disk[cache.buf[y].at]
      modifies cache`ring, cache`place, cache`moves, cache.buf, cache.next, cache.prev
      ensures Sound() && Pinned(cache.buf[..], pins) && Quiet(cache.buf[..])
    {
      hide Linked, Coherent, Pinned;
      Drop(x, pins);
      Drop(y, pins);
    }

    /** memmove from one held buffer to the other, bwrite, and two brelse. */
    method CopyHeld(from: nat, to: nat, ghost pins: set<Addr>)
      requires Sound() && Pinned(cache.buf[..], pins)
      requires 0 < from < cache.buf.Length && 0 < to < cache.buf.Length
      requires HoldsTwo(cache.buf[..], cache.view, from, to, cache.buf[from].at, cache.buf[to].at)
      requires cache.buf[from].dirty || cache.buf[from].data == cache.disk[cache.buf[from].at]
      modifies cache, cache.buf, cache.next, cache.prev
      ensures Sound() && Quiet(cache.buf[..])
      ensures Pinned(cache.buf[..], pins - {old(cache.buf[to].at)})
      ensures cache.disk == old(cache.disk)[old(cache.buf[to].at) := old(cache.buf[from].data)]
      ensures cache.view == old(cache.view)[old(cache.buf[to].at) := old(cache.buf[from].data)]
      ensures cache.writes == old(cache.writes) + [cache.disk]
    {
      ghost var a := cache.buf[to].at;
      HeldApart(cache.buf[..], cache.disk, cache.view, from, to);
      hide Linked, Coherent, Pinned;
      PutBlock(to, cache.buf[from].data, pins);
      DropTwo(from, to, pins - {a});
    }

    /** The loop of write_head. */
    method EncodeHeader(h: Block) returns (hb: Block)
      requires block.Length == LOGSIZE && n <= LOGSIZE
      ensures hb == PutHeader(h, block[..n], n)
    {
      hb := SetWord(h, 0, n);
      var i := 0;
      while i < n
        invariant 0 <= i <= n
        invariant hb == PutHeader(h, block[..n], i)
      {
        hb := SetWord(hb, i + 1, block[i]);
        i := i + 1;
      }
    }

    /** write_head: the in-memory header goes to the header block. */
    method WriteHead(ghost pins: set<Addr>)
      requires Sound() && Quiet(cache.buf[..]) && Pinned(cache.buf[..], pins)
      requires Geo().Header() !in pins && |pins| < cache.buf.Length - 1
      modifies cache, cache.buf, cache.next, cache.prev
      ensures Sound() && Quiet(cache.buf[..]) && Pinned(cache.buf[..], pins)
      ensures cache.disk == old(cache.disk)[Geo().Header() := PutHeader(old(cache.disk[Geo().Header()]), block[..n], n)]
      ensures cache.view == old(cache.view)[Geo().Header() := cache.disk[Geo().Header()]]
      ensures cache.writes == old(cache.writes) + [cache.disk]
    {
      hide Linked, ByRecency, Coherent, Pinned, PutHeader, BufOk, Cached;
      PanicsWhenFull(cache.buf[..], cache.disk, cache.view, pins, Geo().Header());
      UnpinnedOnDisk(cache.buf[..], cache.disk, cache.view, pins, Geo().Header());
      var r := ReadOne(start, pins);
      var hb := EncodeHeader(cache.buf[r.value].data);
      PutBlock(r.value, hb, pins);
      assert pins - {Geo().Header()} == pins;
      Drop(r.value, pins);
    }

    /** The body of the loop of write_log: false if bread panics. */
    method WriteLogBlock(tail: nat, ghost pins: set<Addr>) returns (ok: bool)
      requires Sound() && Quiet(cache.buf[..]) && Pinned(cache.buf[..], pins)
      requires tail < n && Geo().Home(block[tail]) in pins
      requires Geo().Slot(tail) in cache.disk && Geo().Slot(tail) !in pins && Geo().Home(block[tail]) in cache.disk
      modifies cache, cache.buf, cache.next, cache.prev
      ensures Sound()
      ensures ok <==> |pins| < cache.buf.Length - 1
      ensures ok ==> Quiet(cache.buf[..]) && Pinned(cache.buf[..], pins)
      ensures ok ==> cache.disk == old(cache.disk[Geo().Slot(tail) := cache.view[Geo().Home(block[tail])]])
      ensures ok ==> cache.view == old(cache.view[Geo().Slot(tail) := cache.view[Geo().Home(block[tail])]])
      ensures cache.writes == old(cache.writes) + if ok then [cache.disk] else []
      ensures !ok ==> cache.disk == old(cache.disk) && cache.view == old(cache.view)
    {
      var read, to, from := ReadTwo(start + tail + 1, block[tail], pins);  // log block, cache block
      if !read { return false; }
      HeldPin(cache.buf[..], cache.disk, cache.view, pins, from);
      CopyHeld(from, to, pins);
      assert pins - {Geo().Slot(tail)} == pins;
      return true;
    }

    /** One iteration of write_log, seen from the start of the loop. */
    method WriteLogStep(tail: nat, ghost d: Disk, ghost v: Disk, ghost w: seq<Disk>, ghost blocks: seq<nat>,
                        ghost pins: set<Addr>) returns (ok: bool)
      requires Sound() && Quiet(cache.buf[..]) && Pinned(cache.buf[..], pins)
      requires Geo().On(d) && Loggable(Geo(), d, blocks) && v.Keys == d.Keys
      requires tail < n == |blocks| && blocks[tail] == block[tail] && Geo().Home(blocks[tail]) in pins
      requires forall a :: Geo().InLog(a) ==> a !in pins
      requires LogProgress(Geo(), d, v, w, blocks, tail, cache.disk, cache.view, cache.writes)
      modifies cache, cache.buf, cache.next, cache.prev
      ensures Sound()
      ensures ok <==> |pins| < cache.buf.Length - 1
      ensures ok ==> Quiet(cache.buf[..]) && Pinned(cache.buf[..], pins)
      ensures ok ==> LogProgress(Geo(), d, v, w, blocks, tail + 1, cache.disk, cache.view, cache.writes)
      ensures !ok ==> cache.disk == old(cache.disk) && cache.writes == old(cache.writes)
    {
      LogStep(Geo(), d, v, w, blocks, tail, cache.disk, cache.view, cache.writes);
      ok := WriteLogBlock(tail, pins);
    }

    /** write_log: false if bread panics. */
    method WriteLog(ghost pins: set<Addr>) returns (ok: bool)
      requires Sound() && Quiet(cache.buf[..]) && Pinned(cache.buf[..], pins)
      requires Loggable(Geo(), cache.disk, block[..n]) && pins == Homes(Geo(), block[..n], 0)
      modifies cache, cache.buf, cache.next, cache.prev
      ensures Sound()
      ensures ok <==> n == 0 || |pins| < cache.buf.Length - 1
      ensures ok ==> Quiet(cache.buf[..]) && Pinned(cache.buf[..], pins)
      ensures ok ==> LogProgress(Geo(), old(cache.disk), old(cache.view), old(cache.writes), block[..n], n,
                                 cache.disk, cache.view, cache.writes)
      ensures !ok ==> cache.disk == old(cache.disk) && cache.writes == old(cache.writes)
    {
      hide Linked, Coherent, Pinned, LogProgress;
      ghost var blocks, d0, v0, w0 := block[..n], cache.disk, cache.view, cache.writes;
      LogStart(Geo(), d0, v0, w0, blocks);
      var tail := 0;
      while tail < n
        invariant 0 <= tail <= n
        invariant tail > 0 ==> |pins| < cache.buf.Length - 1
        invariant Sound() && Quiet(cache.buf[..]) && Pinned(cache.buf[..], pins)
        invariant LogProgress(Geo(), d0, v0, w0, blocks, tail, cache.disk, cache.view, cache.writes)
        invariant tail == 0 ==> cache.disk == d0 && cache.writes == w0
      {
        assert blocks[tail] == block[tail];
        ok := WriteLogStep(tail, d0, v0, w0, blocks, pins);
        if !ok { return false; }
        tail := tail + 1;
      }
      return true;
    }

    /** The body of the loop of install_trans. */
    method InstallBlock(tail: nat, ghost pins: set<Addr>)
      requires Sound() && Quiet(cache.buf[..]) && Pinned(cache.buf[..], pins)
      requires tail < n && |pins| < cache.buf.Length - 1 && (Geo().Home(block[tail]) in pins || pins == {})
      requires Geo().Slot(tail) in cache.disk && Geo().Slot(tail) !in pins
      requires Geo().Home(block[tail]) in cache.disk && Geo().Home(block[tail]) != Geo().Slot(tail)
      modifies cache, cache.buf, cache.next, cache.prev
      ensures Sound() && Quiet(cache.buf[..]) && Pinned(cache.buf[..], pins - {Geo().Home(block[tail])})
      ensures cache.disk == old(cache.disk[Geo().Home(block[tail]) := cache.disk[Geo().Slot(tail)]])
      ensures cache.writes == old(cache.writes) + [cache.disk]
    {
      UnpinnedOnDisk(cache.buf[..], cache.disk, cache.view, pins, Geo().Slot(tail));
      hide Linked, Coherent, Pinned;
      var _, from, to := ReadTwo(start + tail + 1, block[tail], pins);  // log block, dst
      CopyHeld(from, to, pins);
    }

    /** One iteration of install_trans, seen from the start of the loop. */
    method InstallStep(tail: nat, ghost d: Disk, ghost w: seq<Disk>, ghost blocks: seq<nat>, ghost pinned: bool)
      requires Sound() && Quiet(cache.buf[..]) && Pinned(cache.buf[..], PinsLeft(Geo(), blocks, pinned, tail))
      requires Loggable(Geo(), d, blocks) && tail < n == |blocks| && blocks[tail] == block[tail]
      requires pinned ==> Distinct(blocks) && n < cache.buf.Length - 1
      requires InstallProgress(Geo(), d, w, blocks, tail, cache.disk, cache.writes)
      modifies cache, cache.buf, cache.next, cache.prev
      ensures Sound() && Quiet(cache.buf[..]) && Pinned(cache.buf[..], PinsLeft(Geo(), blocks, pinned, tail + 1))
      ensures InstallProgress(Geo(), d, w, blocks, tail + 1, cache.disk, cache.writes)
    {
      InstallKeeps(Geo(), d, blocks, tail);
      assert Geo().Slot(tail) in cache.disk by { assert start <= start + tail + 1 < start + size; }
      PinsLeftStep(Geo(), d, blocks, pinned, tail);
      InstallTraceStep(Geo(), d, w, blocks, tail);
      hide Linked, Coherent, Pinned, Install, InstallTrace, PinsLeft;
      InstallBlock(tail, PinsLeft(Geo(), blocks, pinned, tail));
    }

    /** install_trans.  During a commit the destinations are pinned; during recovery nothing is. */
    method InstallTrans(ghost pinned: bool)
      requires Sound() && Quiet(cache.buf[..])
      requires Loggable(Geo(), cache.disk, block[..n]) && (pinned ==> Distinct(block[..n]) && n < cache.buf.Length - 1)
      requires Pinned(cache.buf[..], PinsLeft(Geo(), block[..n], pinned, 0))
      modifies cache, cache.buf, cache.next, cache.prev
      ensures Sound() && Quiet(cache.buf[..]) && Pinned(cache.buf[..], {})
      ensures InstallProgress(Geo(), old(cache.disk), old(cache.writes), block[..n], n, cache.disk, cache.writes)
    {
      ghost var g, blocks, d, w := Geo(), block[..n], cache.disk, cache.writes;
      hide Linked, Coherent, Pinned, InstallProgress, PinsLeft, Distinct, Loggable;
      InstallStart(g, d, w, blocks);
      var tail := 0;
      while tail < n
        invariant 0 <= tail <= n
        invariant Sound() && Quiet(cache.buf[..])
        invariant Pinned(cache.buf[..], PinsLeft(g, blocks, pinned, tail))
        invariant InstallProgress(g, d, w, blocks, tail, cache.disk, cache.writes)
      {
        assert blocks[tail] == block[tail];
        InstallStep(tail, d, w, blocks, pinned);
        tail := tail + 1;
      }
      PinsDone(g, blocks, pinned);
    }

    /** What commit starts from: no buffer in use, the logged blocks pinned, no transaction in the log. */
    ghost predicate Ready()
      reads Repr()
    {
      && Sound() && Quiet(cache.buf[..])
      && Loggable(Geo(), cache.disk, block[..n]) && Distinct(block[..n])
      && Pinned(cache.buf[..], Homes(Geo(), block[..n], 0))
      && Count(At(cache.disk, Geo().Header())) == 0
    }

    /** write_log and write_head: the log blocks and the header reach the disk. */
    method Seal() returns (ok: bool)
      requires Ready() && n > 0
      modifies cache, cache.buf, cache.next, cache.prev
      ensures Sound()
      ensures ok <==> n < cache.buf.Length - 1
      ensures ok ==> Quiet(cache.buf[..]) && Pinned(cache.buf[..], Homes(Geo(), block[..n], 0))
      ensures ok ==> var data := DataOf(Geo(), old(cache.view), block[..n]);
                     && cache.disk == Sealed(Geo(), old(cache.disk), block[..n], data)
                     && cache.writes == old(cache.writes) + LogTrace(Geo(), old(cache.disk), data, n) + [cache.disk]
      ensures !ok ==> cache.disk == old(cache.disk) && cache.writes == old(cache.writes)
    {
      ghost var g, blocks, d, v, w := Geo(), block[..n], cache.disk, cache.view, cache.writes;
      ghost var pins := Homes(g, blocks, 0);
      HomesCount(g, blocks, 0);
      HomesOutside(g, d, blocks);
      hide Ready, Linked, Coherent, Pinned, Quiet, Distinct, Homes, Logged, LogTrace, LogProgress, DataOf, Sealed, PutHeader;
      ok := WriteLog(pins);
      if ok {
        SealValues(g, d, v, w, blocks, cache.disk, cache.view, cache.writes);
        WriteHead(pins);
      }
    }

    /** commit of a non-empty log. */
    method CommitBlocks() returns (ok: bool)
      requires Ready() && n > 0
      modifies this`n, cache, cache.buf, cache.next, cache.prev
      ensures Sound()
      ensures ok <==> old(n) < cache.buf.Length - 1
      ensures ok ==> Quiet(cache.buf[..]) && Pinned(cache.buf[..], {}) && n == 0
      ensures ok ==> var g, blocks := Geo(), old(block[..n]);
                     var data := DataOf(g, old(cache.view), blocks);
                     && cache.disk == Committed(g, old(cache.disk), blocks, data)
                     && cache.writes == old(cache.writes) + CommitTrace(g, old(cache.disk), blocks, data)
      ensures !ok ==> cache.disk == old(cache.disk) && cache.writes == old(cache.writes)
    {
      ghost var g, d, blocks := Geo(), cache.disk, block[..n];
      ghost var data := DataOf(g, cache.view, blocks);
      CommitTraceParts(g, d, blocks, data, cache.writes);
      hide CommitTrace, Linked, Coherent, Pinned, Quiet, Loggable, Distinct, Homes, Sealed, InstallTrace, LogTrace,
           DataOf, Committed;
      ok := Seal();
      if ok {
        Finish(d, blocks, data);
      }
    }

    /** commit: false if bread panics because the logged blocks fill the cache. */
    method Commit() returns (ok: bool)
      requires Ready()
      modifies this`n, cache, cache.buf, cache.next, cache.prev
      ensures Sound()
      ensures ok <==> old(n) == 0 || old(n) < cache.buf.Length - 1
      ensures ok ==> Ready() && n == 0
      // the logical contents are on disk, and the same as before
      ensures ok ==> SameHome(Geo(), cache.disk, old(cache.view)) && cache.view == cache.disk
      // exactly these block writes, in this order
      ensures cache.writes == old(cache.writes) +
                if !ok || old(n) == 0 then []
                else CommitTrace(Geo(), old(cache.disk), old(block[..n]), DataOf(Geo(), old(cache.view), old(block[..n])))
      ensures !ok ==> cache.disk == old(cache.disk)
    {
      ghost var g, d, v, blocks := Geo(), cache.disk, cache.view, block[..n];
      OffPinsOnDisk(cache.buf[..], d, v, Homes(g, blocks, 0));
      EmptyLog(g, d);
      if n > 0 {
        CommittedShowsView(g, d, v, blocks);
        CommittedHeader(g, d, blocks, DataOf(g, v, blocks));
        hide CommitTrace, Linked, Coherent, Pinned, Quiet, Loggable, Distinct, Homes, DataOf, Committed;
        ok := CommitBlocks();
        if ok { AtRest(); }
      } else {
        ok := true;
      }
    }

    lemma AtRest()
      requires Sound() && Quiet(cache.buf[..]) && Pinned(cache.buf[..], {}) && n == 0
      requires Count(At(cache.disk, Geo().Header())) == 0
      ensures Ready() && cache.view == cache.disk
    {
      OffPinsOnDisk(cache.buf[..], cache.disk, cache.view, {});
      EmptyLog(Geo(), cache.disk);
      assert block[..n] == [];
      hide Linked, Coherent, Quiet, Count;
    }

    /** The rest of commit: install_trans, and write_head with the log empty. */
    method Finish(ghost d: Disk, ghost blocks: seq<nat>, ghost data: seq<Block>)
      requires Sound() && Quiet(cache.buf[..]) && Pinned(cache.buf[..], Homes(Geo(), blocks, 0))
      requires Startable(Geo(), d, blocks, data) && Distinct(blocks) && blocks == block[..n]
      requires cache.disk == Sealed(Geo(), d, blocks, data) && n < cache.buf.Length - 1
      modifies this`n, cache, cache.buf, cache.next, cache.prev
      ensures Sound() && Quiet(cache.buf[..]) && Pinned(cache.buf[..], {}) && n == 0
      ensures cache.disk == Committed(Geo(), d, blocks, data)
      ensures cache.writes == old(cache.writes) +
                InstallTrace(Geo(), old(cache.disk), blocks, |blocks|) + [Committed(Geo(), d, blocks, data)]
    {
      ghost var s, w := cache.disk, cache.writes;
      SealedIsRecoverable(Geo(), d, blocks, data);
      assert Loggable(Geo(), s, blocks);
      hide Linked, Coherent, Pinned, Quiet, Loggable, Distinct, Homes, Sealed, Install, InstallTrace, InstallProgress,
           PutHeader, Startable, Recoverable, Committed;
      InstallTrans(true);
      FinishValues(Geo(), d, w, blocks, data, cache.disk, cache.writes);
      n := 0;
      WriteHead({});
    }

    // ---- recovery ----

    /** read_head */
    method ReadHead()
      requires Sound() && Quiet(cache.buf[..]) && Pinned(cache.buf[..], {})
      requires Count(At(cache.disk, Geo().Header())) <= LOGSIZE
      modifies this`n, block, cache`ring, cache`place, cache`moves, cache.buf, cache.next, cache.prev
      ensures Sound() && Quiet(cache.buf[..]) && Pinned(cache.buf[..], {})
      ensures block[..n] == Pending(Geo(), cache.disk)
    {
      PanicsWhenFull(cache.buf[..], cache.disk, cache.view, {}, Geo().Header());
      UnpinnedOnDisk(cache.buf[..], cache.disk, cache.view, {}, Geo().Header());
      hide Linked, Coherent, Pinned;
      var r := ReadOne(start, {});
      DecodeHeader(cache.buf[r.value].data);
      Drop(r.value, {});
    }

    /** The loop of read_head. */
    method DecodeHeader(h: Block)
      requires block.Length == LOGSIZE && Count(h) <= LOGSIZE
      modifies this`n, block
      ensures n <= LOGSIZE && block[..n] == Dests(h)
    {
      hide Word;
      n := Word(h, 0);
      var i := 0;
      while i < n
        invariant 0 <= i <= n == Count(h)
        invariant forall j :: 0 <= j < i ==> block[j] == Word(h, j + 1)
      {
        block[i] := Word(h, i + 1);
        i := i + 1;
      }
    }

    /** recover_from_log, on the cache as it is at boot. */
    method RecoverFromLog()
      requires Sound() && Quiet(cache.buf[..]) && Pinned(cache.buf[..], {}) && Recoverable(Geo(), cache.disk)
      modifies this`n, block, cache, cache.buf, cache.next, cache.prev
      ensures Ready() && n == 0
      ensures cache.view == cache.disk == Recover(Geo(), old(cache.disk))
      ensures cache.writes == old(cache.writes) + RecoverTrace(Geo(), old(cache.disk))
    {
      ghost var g, d, w := Geo(), cache.disk, cache.writes;
      ReadHead();
      ghost var blocks := block[..n];
      ClearedHeader(At(d, g.Header()));
      hide Linked, Coherent, Pinned, Quiet, Install, InstallTrace, InstallProgress, PinsLeft, PutHeader, Count, Dests;
      NothingPinned(g, blocks);
      InstallTrans(false);
      RecoverValues(g, d, w, cache.disk, cache.writes);
      n := 0;
      WriteHead({});
      AtRest();
    }

    // ---- operations ----

    /** What log.lock protects. */
    function Shared(): GroupCommit.Shared
      requires n <= block.Length
      reads this, block
    {
      GroupCommit.Shared.Shared(block[..n], outstanding, committing)
    }

    /** One round of the loop of begin_op: false if the caller goes to sleep instead. */
    method BeginOp() returns (admitted: bool)
      requires n <= block.Length
      modifies this`outstanding
      ensures admitted == old(Shared().CanBegin())
      ensures Shared() == if admitted then old(Shared().Begin()) else old(Shared())
    {
      if committing {
        return false;
      } else if n + (outstanding + 1) * MAXOPBLOCKS > LOGSIZE {
        return false;
      } else {
        outstanding := outstanding + 1;
        return true;
      }
    }

    /** The first critical section of end_op: ok is false if it panics. */
    method EndOp() returns (ok: bool, doCommit: bool)
      requires n <= block.Length && outstanding > 0
      modifies this`outstanding, this`committing
      ensures ok == !old(committing)
      ensures ok ==> Shared() == old(Shared().End()) && doCommit == committing
    {
      doCommit := false;
      outstanding := outstanding - 1;
      if committing {
        return false, false;  // "log.committing"
      }
      if outstanding == 0 {
        doCommit := true;
        committing := true;
      }
      return true, doCommit;
    }

    /** The second critical section of end_op. */
    method EndCommit()
      requires n <= block.Length
      modifies this`committing
      ensures Shared() == old(Shared().Finish())
    {
      committing := false;
    }

    /** Between the steps of operations: the logged blocks are loggable, distinct and pinned. */
    ghost predicate Tidy()
      reads Repr()
    {
      && Sound() && Loggable(Geo(), cache.disk, block[..n]) && Distinct(block[..n])
      && Pinned(cache.buf[..], Homes(Geo(), block[..n], 0))
    }

    /** log_write of a held buffer: false if it panics. */
    method LogWrite(b: nat) returns (ok: bool)
      requires Tidy() && 0 < b < cache.buf.Length && cache.buf[b].locked && cache.buf[b].valid
      requires cache.buf[b].at.dev == dev && !Geo().InLog(cache.buf[b].at) && cache.buf[b].at.no < WORD_LIMIT
      modifies this`n, block, cache.buf
      ensures Sound()
      ensures ok == !old(Shared().LogPanics(size))
      ensures ok ==> Tidy() && Shared() == old(Shared().Log(cache.buf[b].at.no))
      ensures ok ==> cache.buf[..] == old(cache.buf[..])[b := old(cache.buf[b]).(dirty := true)]
    {
      var no := cache.buf[b].at.no;
      ghost var old_, buf0 := block[..n], cache.buf[..];
      assert BufOk(buf0[b], cache.disk, cache.view);
      if n >= LOGSIZE || n >= size - 1 {
        return false;  // "too big a transaction"
      }
      if outstanding < 1 {
        return false;  // "log_write outside of trans"
      }
      hide Linked, Coherent, Pinned, Loggable, Distinct, Homes;
      AddBlock(no);
      cache.Pin(b);
      LogWriteValues(Geo(), cache.disk, old_, no, buf0, b);
      return true;
    }

    /** The loop of log_write: the block joins the log unless it is there already. */
    method AddBlock(no: nat)
      requires n < block.Length
      modifies this`n, block
      ensures n <= block.Length
      ensures block[..n] == if no in old(block[..n]) then old(block[..n]) else old(block[..n]) + [no]
    {
      var i := 0;
      while i < n
        invariant 0 <= i <= n
        invariant no !in block[..i]
      {
        if block[i] == no { break; }  // log absorption
        i := i + 1;
      }
      block[i] := no;
      if i == n {
        n := n + 1;
      }
    }
  }

  /** initlog on a freshly booted kernel: recovery on a new cache. */
  method InitLog(nbuf: nat, disk: Disk, dev: nat, start: nat, size: nat) returns (log: Log)
    requires nbuf >= 2 && Recoverable(Geometry(dev, start, size), disk)
    ensures log.Ready() && log.Geo() == Geometry(dev, start, size) && log.n == 0
    ensures log.cache.view == log.cache.disk == Recover(log.Geo(), disk)
    ensures log.cache.writes == RecoverTrace(log.Geo(), disk)
  {
    var cache := new Cache(nbuf, disk);
    log := new Log(cache, dev, start, size);
    assert Quiet(cache.buf[..]) && Pinned(cache.buf[..], {});
    hide Linked, Coherent, Pinned, Quiet, Recoverable;
    log.RecoverFromLog();
  }

  lemma NothingPinned(g: Geometry, blocks: seq<nat>)
    ensures PinsLeft(g, blocks, false, 0) == {}
  {
  }

  lemma RecoverValues(g: Geometry, d: Disk, w: seq<Disk>, disk: Disk, writes: seq<Disk>)
    requires Recoverable(g, d)
    requires InstallProgress(g, d, w, Pending(g, d), |Pending(g, d)|, disk, writes)
    ensures g.Header() in disk
    ensures forall none: seq<nat> :: none == [] ==> disk[g.Header() := PutHeader(disk[g.Header()], none, 0)] == Recover(g, d)
    ensures writes + [Recover(g, d)] == w + RecoverTrace(g, d)
    ensures Count(At(Recover(g, d), g.Header())) == 0
  {
    InstallKeeps(g, d, Pending(g, d), |Pending(g, d)|);
    ClearedHeader(At(d, g.Header()));
    hide Install, InstallTrace, Count;
  }

  lemma HomesAfter(g: Geometry, blocks: seq<nat>, no: nat, a: Addr)
    ensures a in Homes(g, if no in blocks then blocks else blocks + [no], 0) <==> a in Homes(g, blocks, 0) || a == g.Home(no)
  {
    var more := if no in blocks then blocks else blocks + [no];
    assert blocks <= more;
    if a in Homes(g, blocks, 0) {
      var i :| 0 <= i < |blocks| && a == g.Home(blocks[i]);
      assert more[i] == blocks[i];
    }
    if a == g.Home(no) {
      var i :| 0 <= i < |more| && more[i] == no;
      assert a == g.Home(more[i]);
    }
    if a in Homes(g, more, 0) {
      var i :| 0 <= i < |more| && a == g.Home(more[i]);
      if i < |blocks| { assert a == g.Home(blocks[i]); }
    }
  }

  lemma LogWriteValues(g: Geometry, disk: Disk, blocks: seq<nat>, no: nat, buf: seq<Buf>, b: nat)
    requires Loggable(g, disk, blocks) && Distinct(blocks) && Pinned(buf, Homes(g, blocks, 0))
    requires 0 < b < |buf| && buf[b].at == g.Home(no) && g.Home(no) in disk && !g.InLog(g.Home(no)) && no < WORD_LIMIT
    requires |blocks| < LOGSIZE && |blocks| + 1 < g.size
    ensures var more := if no in blocks then blocks else blocks + [no];
            Loggable(g, disk, more) && Distinct(more) && Pinned(buf[b := buf[b].(dirty := true)], Homes(g, more, 0))
  {
    var more, buf' := if no in blocks then blocks else blocks + [no], buf[b := buf[b].(dirty := true)];
    forall i | 0 < i < |buf'| && buf'[i].dirty ensures buf'[i].at in Homes(g, more, 0) {
      HomesAfter(g, blocks, no, buf[i].at);
      assert i != b ==> buf[i].dirty;
    }
    forall a | a in Homes(g, more, 0) ensures PinnedAt(buf', a) {
      HomesAfter(g, blocks, no, a);
      if a == g.Home(no) {
        assert buf'[b].dirty && buf'[b].at == a;
      } else {
        assert PinnedAt(buf, a);
        var i :| 0 < i < |buf| && buf[i].dirty && buf[i].at == a;
        assert buf'[i].dirty && buf'[i].at == a;
      }
    }
  }

  lemma FinishValues(g: Geometry, d: Disk, w: seq<Disk>, blocks: seq<nat>, data: seq<Block>, disk: Disk, writes: seq<Disk>)
    requires Startable(g, d, blocks, data)
    requires InstallProgress(g, Sealed(g, d, blocks, data), w, blocks, |blocks|, disk, writes)
    ensures g.Header() in disk
    ensures forall none: seq<nat> :: none == [] ==>
              disk[g.Header() := PutHeader(disk[g.Header()], none, 0)] == Committed(g, d, blocks, data)
    ensures writes == w + InstallTrace(g, Sealed(g, d, blocks, data), blocks, |blocks|)
  {
    SealedIsRecoverable(g, d, blocks, data);
    InstallKeeps(g, Sealed(g, d, blocks, data), blocks, |blocks|);
    hide Sealed, Install, InstallTrace;
  }

  lemma HomesOutside(g: Geometry, d: Disk, blocks: seq<nat>)
    requires Loggable(g, d, blocks)
    ensures g.Header() !in Homes(g, blocks, 0) && forall a :: g.InLog(a) ==> a !in Homes(g, blocks, 0)
  {
    assert |blocks| < g.size;
  }

  lemma SealValues(g: Geometry, d: Disk, v: Disk, w: seq<Disk>, blocks: seq<nat>, disk: Disk, view: Disk, writes: seq<Disk>)
    requires g.On(d) && Loggable(g, d, blocks) && LogProgress(g, d, v, w, blocks, |blocks|, disk, view, writes)
    ensures g.Header() in disk
    ensures var data := DataOf(g, v, blocks);
            && disk[g.Header() := PutHeader(disk[g.Header()], blocks, |blocks|)] == Sealed(g, d, blocks, data)
            && writes == w + LogTrace(g, d, data, |blocks|)
  {
    LoggedKeeps(g, d, DataOf(g, v, blocks), |blocks|);
    hide Logged, LogTrace, PutHeader;
  }

  lemma OffPinsOnDisk(buf: seq<Buf>, disk: Disk, view: Disk, pins: set<Addr>)
    requires Coherent(buf, disk, view) && Quiet(buf) && Pinned(buf, pins)
    ensures disk.Keys == view.Keys && forall a :: a in disk && a !in pins ==> view[a] == disk[a]
  {
    forall a | a in disk && a !in pins ensures view[a] == disk[a] {
      UnpinnedOnDisk(buf, disk, view, pins, a);
    }
  }

  lemma NotLogged(g: Geometry, blocks: seq<nat>, a: Addr)
    requires a.dev == g.dev ==> LastOf(blocks, |blocks|, a.no) >= |blocks|
    ensures a !in Homes(g, blocks, 0)
  {
    assert blocks[..|blocks|] == blocks;
  }

  lemma CommittedHeader(g: Geometry, d: Disk, blocks: seq<nat>, data: seq<Block>)
    requires Startable(g, d, blocks, data)
    ensures Count(At(Committed(g, d, blocks, data), g.Header())) == 0
  {
    ClearedHeader(At(Sealed(g, d, blocks, data), g.Header()));
    hide Sealed, Install, Cleared, Count;
  }

  lemma AppliedShowsView(g: Geometry, d: Disk, v: Disk, blocks: seq<nat>)
    requires v.Keys == d.Keys && forall a :: a in d && a !in Homes(g, blocks, 0) ==> v[a] == d[a]
    ensures SameHome(g, Applied(g, d, blocks, DataOf(g, v, blocks)), v)
  {
    var data := DataOf(g, v, blocks);
    forall a | a in d && !g.InLog(a) ensures Applied(g, d, blocks, data)[a] == v[a] {
      var i := LastOf(blocks, |blocks|, a.no);
      if a.dev == g.dev && i < |blocks| {
        assert g.Home(blocks[i]) == a;
      } else {
        NotLogged(g, blocks, a);
      }
    }
  }

  /** A complete commit brings the logical contents to the home blocks. */
  lemma CommittedShowsView(g: Geometry, d: Disk, v: Disk, blocks: seq<nat>)
    requires Startable(g, d, blocks, DataOf(g, v, blocks)) && v.Keys == d.Keys
    requires forall a :: a in d && a !in Homes(g, blocks, 0) ==> v[a] == d[a]
    ensures SameHome(g, Committed(g, d, blocks, DataOf(g, v, blocks)), v)
  {
    var data := DataOf(g, v, blocks);
    SealedIsRecoverable(g, d, blocks, data);
    SealedIsApplied(g, d, blocks, data);
    AppliedShowsView(g, d, v, blocks);
    assert Recover(g, Sealed(g, d, blocks, data)) == Committed(g, d, blocks, data) by {
      hide Sealed, Install, Startable, Recoverable, Applied;
    }
    hide Sealed, Install, Startable, Recoverable, Recover, Committed, Applied, DataOf, Homes;
  }

  lemma CommitTraceParts(g: Geometry, d: Disk, blocks: seq<nat>, data: seq<Block>, w: seq<Disk>)
    requires |blocks| == |data| <= LOGSIZE
    ensures var s := Sealed(g, d, blocks, data);
            w + LogTrace(g, d, data, |blocks|) + [s] +
              InstallTrace(g, s, blocks, |blocks|) + [Committed(g, d, blocks, data)] ==
            w + CommitTrace(g, d, blocks, data)
  {
    hide Sealed, LogTrace, InstallTrace, Committed;
  }

  lemma EmptyLog(g: Geometry, d: Disk)
    requires g.size >= 1
    ensures Loggable(g, d, []) && Distinct([]) && Homes(g, [], 0) == {}
  {
  }

  /** The blocks still pinned when install_trans has done k of them. */
  ghost function PinsLeft(g: Geometry, blocks: seq<nat>, pinned: bool, k: nat): set<Addr> {
    if pinned then Homes(g, blocks, k) else {}
  }

  lemma PinsDone(g: Geometry, blocks: seq<nat>, pinned: bool)
    ensures PinsLeft(g, blocks, pinned, |blocks|) == {}
  {
  }

  lemma PinsLeftStep(g: Geometry, d: Disk, blocks: seq<nat>, pinned: bool, k: nat)
    requires Loggable(g, d, blocks) && (pinned ==> Distinct(blocks)) && k < |blocks|
    ensures PinsLeft(g, blocks, pinned, k) - {g.Home(blocks[k])} == PinsLeft(g, blocks, pinned, k + 1)
    ensures g.Home(blocks[k]) in PinsLeft(g, blocks, pinned, k) || PinsLeft(g, blocks, pinned, k) == {}
    ensures |PinsLeft(g, blocks, pinned, k)| <= if pinned then |blocks| else 0
    ensures forall a :: g.InLog(a) ==> a !in PinsLeft(g, blocks, pinned, k)
  {
    if pinned { HomesCount(g, blocks, k); }
  }

  /** How far install_trans has come: k blocks copied home. */
  ghost predicate InstallProgress(g: Geometry, d: Disk, w: seq<Disk>, blocks: seq<nat>, k: nat, disk: Disk, writes: seq<Disk>)
    requires k <= |blocks|
  {
    disk == Install(g, d, blocks, k) && writes == w + InstallTrace(g, d, blocks, k)
  }

  lemma InstallStart(g: Geometry, d: Disk, w: seq<Disk>, blocks: seq<nat>)
    ensures InstallProgress(g, d, w, blocks, 0, d, w)
  {
  }

  lemma InstallTraceStep(g: Geometry, d: Disk, w: seq<Disk>, blocks: seq<nat>, k: nat)
    requires k < |blocks|
    ensures var e := Install(g, d, blocks, k)[g.Home(blocks[k]) := At(d, g.Slot(k))];
            InstallProgress(g, d, w, blocks, k + 1, e, w + InstallTrace(g, d, blocks, k) + [e])
  {
  }

  /** The home blocks from position k on. */
  ghost function Homes(g: Geometry, blocks: seq<nat>, k: nat): set<Addr> {
    set i | k <= i < |blocks| :: g.Home(blocks[i])
  }

  lemma {:induction false} HomesCount(g: Geometry, blocks: seq<nat>, k: nat)
    requires k <= |blocks| && Distinct(blocks)
    ensures |Homes(g, blocks, k)| == |blocks| - k
    decreases |blocks| - k
  {
    if k < |blocks| {
      HomesCount(g, blocks, k + 1);
      assert Homes(g, blocks, k) == Homes(g, blocks, k + 1) + {g.Home(blocks[k])};
    }
  }

  /** The logical contents of the logged blocks. */
  function DataOf(g: Geometry, view: Disk, blocks: seq<nat>): (data: seq<Block>)
    ensures |data| == |blocks|
  {
    seq(|blocks|, i requires 0 <= i < |blocks| => At(view, g.Home(blocks[i])))
  }

  /** How far write_log has come: k log blocks written. */
  ghost predicate LogProgress(g: Geometry, d: Disk, v: Disk, w: seq<Disk>, blocks: seq<nat>, k: nat,
                              disk: Disk, view: Disk, writes: seq<Disk>)
    requires k <= |blocks|
  {
    && disk == Logged(g, d, DataOf(g, v, blocks), k)
    && SameHome(g, v, view)
    && writes == w + LogTrace(g, d, DataOf(g, v, blocks), k)
  }

  lemma LogStart(g: Geometry, d: Disk, v: Disk, w: seq<Disk>, blocks: seq<nat>)
    ensures LogProgress(g, d, v, w, blocks, 0, d, v, w)
  {
  }

  lemma LogStep(g: Geometry, d: Disk, v: Disk, w: seq<Disk>, blocks: seq<nat>, k: nat,
                disk: Disk, view: Disk, writes: seq<Disk>)
    requires g.On(d) && Loggable(g, d, blocks) && v.Keys == d.Keys && k < |blocks|
    requires LogProgress(g, d, v, w, blocks, k, disk, view, writes)
    ensures var x := view[g.Home(blocks[k])];
            LogProgress(g, d, v, w, blocks, k + 1, disk[g.Slot(k) := x], view[g.Slot(k) := x],
                        writes + [disk[g.Slot(k) := x]])
  {
    var data := DataOf(g, v, blocks);
    assert view[g.Home(blocks[k])] == data[k];
    assert writes + [Logged(g, d, data, k + 1)] == w + LogTrace(g, d, data, k + 1);
  }

  /** A pinned block that is held is held in its pinned buffer. */
  lemma HeldPin(buf: seq<Buf>, disk: Disk, view: Disk, pins: set<Addr>, b: nat)
    requires Coherent(buf, disk, view) && Pinned(buf, pins) && 0 < b < |buf| && buf[b].at in pins
    ensures buf[b].dirty
  {
    var i :| 0 < i < |buf| && buf[i].dirty && buf[i].at == buf[b].at;
    assert BufOk(buf[i], disk, view);
    assert i < b || b < i || i == b;
  }

  lemma UnpinnedOnDisk(buf: seq<Buf>, disk: Disk, view: Disk, pins: set<Addr>, a: Addr)
    requires Coherent(buf, disk, view) && Quiet(buf) && Pinned(buf, pins) && a !in pins && a in disk
    ensures view[a] == disk[a]
  {
    if Shown(buf, a) {
      var i :| 0 < i < |buf| && buf[i].valid && buf[i].at == a;
      assert BufOk(buf[i], disk, view);
    }
  }

  lemma HeldApart(buf: seq<Buf>, disk: Disk, view: Disk, x: nat, y: nat)
    requires Coherent(buf, disk, view) && 0 < x < |buf| && 0 < y < |buf| && x != y && buf[x].locked
    ensures buf[x].at != buf[y].at
  {
    assert BufOk(buf[x], disk, view);
    assert x < y || y < x;
  }

  /** A buffer that its only user has locked. */
  function Held(a: Addr, dirty: bool, view: Disk): Buf
    requires a in view
  {
    Buf(a, true, dirty, true, 1, view[a])
  }

  predicate OnlyTwo(buf: seq<Buf>, x: nat, y: nat) {
    && 0 < x < |buf| && 0 < y < |buf| && x != y
    && buf[x].locked && buf[x].refcnt == 1 && buf[x].valid
    && buf[y].locked && buf[y].refcnt == 1 && buf[y].valid
    && forall i :: 0 < i < |buf| && i != x && i != y ==> !buf[i].locked && buf[i].refcnt == 0
  }

  /** x and y are the only buffers held, and show the logical contents of a and c. */
  ghost predicate HoldsTwo(buf: seq<Buf>, view: Disk, x: nat, y: nat, a: Addr, c: Addr)
  {
    && 0 < x < |buf| && 0 < y < |buf| && x != y
    && a in view && c in view
    && buf[x] == Held(a, buf[x].dirty, view) && buf[y] == Held(c, buf[y].dirty, view)
    && forall i :: 0 < i < |buf| && i != x && i != y ==> !buf[i].locked && buf[i].refcnt == 0
  }
}
