/**
 The file system on top of the log: what a writei leaves behind if the machine crashes anywhere in
 the commit of its transaction, or in the recoveries after that.
 */
module Durability {
  import opened Basics
  import opened Blocks
  import opened FsModel
  import opened FileModel
  import C = CrashModel
  import B = BufferCache

  /** What the file system sees of disk e.  The log's own blocks, which it never reads, are taken from base. */
  ghost function Seen(g: C.Geometry, e: B.Disk, base: Store): Store {
    map x | x in base :: if g.InLog(g.Home(x)) then base[x] else C.At(e, g.Home(x))
  }

  /** The home blocks of disk d hold the store. */
  ghost predicate Holds(g: C.Geometry, d: B.Disk, s: Store) {
    forall x :: x in s && !g.InLog(g.Home(x)) ==> g.Home(x) in d && d[g.Home(x)] == s[x]
  }

  /** A transaction that logs every block in which after differs from before, as it is in after. */
  ghost predicate Transaction(g: C.Geometry, d: B.Disk, before: Store, after: Store, blocks: seq<nat>, data: seq<Block>) {
    && C.Startable(g, d, blocks, data) && Holds(g, d, before)
    && Recorded(before, after, set x | x in blocks)
    && forall i :: 0 <= i < |blocks| ==> blocks[i] in after && data[i] == after[blocks[i]]
  }

  /** After a crash at any block write of the commit and any number of interrupted recoveries, the file system is exactly
      what it was before the transaction or exactly what it is after it. */
  lemma StoreIsAtomic(g: C.Geometry, d: B.Disk, before: Store, after: Store, blocks: seq<nat>, data: seq<Block>,
                      k: nat, chain: seq<B.Disk>)
    requires Transaction(g, d, before, after, blocks, data) && k <= 2 * |blocks| + 2
    requires |chain| > 0 && C.CrashChain(g, chain) && chain[0] == C.CommitPoint(g, d, blocks, data, k)
    ensures Seen(g, C.Recover(g, chain[|chain| - 1]), before) == if k <= |blocks| then before else after
  {
    hide C.CommitPoint, C.Recover, C.Startable, C.CrashChain, C.Applied;
    C.CrashAtomicity(g, d, blocks, data, k, chain);
    var e := C.Recover(g, chain[|chain| - 1]);
    if k <= |blocks| { SeenBefore(g, d, e, before); } else { SeenAfter(g, d, e, before, after, blocks, data); }
  }

  lemma SeenBefore(g: C.Geometry, d: B.Disk, e: B.Disk, before: Store)
    requires Holds(g, d, before) && C.SameHome(g, e, d)
    ensures Seen(g, e, before) == before
  {
  }

  lemma SeenAfter(g: C.Geometry, d: B.Disk, e: B.Disk, before: Store, after: Store, blocks: seq<nat>, data: seq<Block>)
    requires Transaction(g, d, before, after, blocks, data) && C.SameHome(g, e, C.Applied(g, d, blocks, data))
    ensures Seen(g, e, before) == after
  {
    forall x | x in before ensures Seen(g, e, before)[x] == after[x] {
      var i := C.LastOf(blocks, |blocks|, x);
      if i < |blocks| { assert blocks[i] == x; } else { assert blocks[..|blocks|] == blocks && x !in blocks; }
    }
  }

  /** Where no place in the inode for the range was empty, or the file grew, writei leaves the inode in memory on disk. */
  predicate WritesThrough(v: View, off: nat, n: nat)
    requires ViewOk(v)
  {
    off + n > v.ci.size || NoInodeHole(v, off, off + n)
  }

  /** Only zeros go where a place in the inode was empty. */
  predicate ZerosInHoles(v: View, off: nat, src: seq<byte>)
    requires ViewOk(v)
  {
    forall x {:trigger AddrOf(x / BSIZE)} :: off <= x < off + |src| && v.ci.addrs[AddrOf(x / BSIZE)] == 0 ==> src[x - off] == 0
  }

  /** The file as it is read from disk after writei, when the inode has not been written. */
  lemma StaleInodeBytes(v: View, v': View, now: View, off: nat, src: seq<byte>, x: nat)
    requires ViewOk(v) && ViewOk(v') && ViewOk(now) && RefsGrow(v, v') && now == v'.(ci := v.ci) && x < MAXFILE * BSIZE
    ensures if v.ci.addrs[AddrOf(x / BSIZE)] == 0 then ByteAt(now, v.cur, x) == ByteAt(v, v.cur, x) == 0
            else ByteAt(now, v.cur, x) == ByteAt(v', v.cur, x)
  {
    var bn := x / BSIZE;
    assert Ref(v, if bn < NDIRECT then Direct(v.cur, bn) else Indirect(v.cur)) == v.ci.addrs[AddrOf(bn)];
    assert Ref(v', if bn < NDIRECT then Direct(v.cur, bn) else Indirect(v.cur)) == v'.ci.addrs[AddrOf(bn)];
  }

  lemma StaleInodeFile(v: View, v': View, now: View, logged: set<nat>, off: nat, src: seq<byte>)
    requires ViewOk(v) && ViewOk(v') && ViewOk(now) && v.cur == v'.cur && v.sb == v'.sb && now == v'.(ci := v.ci)
    requires v.ci.size <= MAXFILE * BSIZE && v'.ci.size <= MAXFILE * BSIZE && off + |src| <= v.ci.size && v'.ci.size == v.ci.size
    requires Written(v, v', logged, off, src)
    ensures File(now) == Splice(File(v), off, src) <==> ZerosInHoles(v, off, src)
  {
    hide Ref, Ino, ByteAt, Decode;
    var f := Splice(File(v), off, src);
    forall x: nat | x < v.ci.size
      ensures if v.ci.addrs[AddrOf(x / BSIZE)] == 0 then File(now)[x] == 0 == File(v)[x] else File(now)[x] == f[x]
    {
      assert File(v')[x] == f[x];
      StaleInodeBytes(v, v', now, off, src, x);
    }
    if ZerosInHoles(v, off, src) {
      forall x: nat | x < v.ci.size ensures File(now)[x] == f[x] {
        if v.ci.addrs[AddrOf(x / BSIZE)] == 0 && off <= x < off + |src| { assert src[x - off] == 0; }
      }
      assert File(now) == f;
    }
    if File(now) == f {
      forall x {:trigger AddrOf(x / BSIZE)} | off <= x < off + |src| && v.ci.addrs[AddrOf(x / BSIZE)] == 0 ensures src[x - off] == 0 {
        assert f[x] == src[x - off];
      }
    }
  }

  /** Crash atomicity of writei: reading the inode from disk again after the crash and the recoveries shows the file as it
      was, or as it is after the writei, depending only on whether the log header had been written.  In the second case the
      inode is the one that was in memory exactly if the write went through to it, and otherwise all of src is there exactly
      if only zeros went where a place in the inode was empty. */
  lemma WriteIsAtomic(g: C.Geometry, d: B.Disk, v: View, v': View, logged: set<nat>, off: nat, src: seq<byte>,
                      blocks: seq<nat>, data: seq<Block>, k: nat, chain: seq<B.Disk>)
    requires ViewOk(v) && ViewOk(v') && v.cur == v'.cur && v.sb == v'.sb && v.ci.size <= MAXFILE * BSIZE && v'.ci.size <= MAXFILE * BSIZE
    requires off <= v.ci.size && off + |src| <= MAXFILE * BSIZE && Written(v, v', logged, off, src) && Synced(v)
    requires Transaction(g, d, v.d, v'.d, blocks, data) && k <= 2 * |blocks| + 2
    requires |chain| > 0 && C.CrashChain(g, chain) && chain[0] == C.CommitPoint(g, d, blocks, data, k)
    ensures var s := Seen(g, C.Recover(g, chain[|chain| - 1]), v.d);
            && v.sb.On(s)
            && var now := Locked(v.sb, s, v.cur);
               && ViewOk(now) && now.ci.size <= MAXFILE * BSIZE
               && (k <= |blocks| ==> now == v)
               && (k > |blocks| ==> (now == v' <==> WritesThrough(v, off, |src|)))
               && (k > |blocks| ==> (File(now) == Splice(File(v), off, src) <==>
                     WritesThrough(v, off, |src|) || ZerosInHoles(v, off, src)))
  {
    StoreIsAtomic(g, d, v.d, v'.d, blocks, data, k, chain);
    assert Locked(v.sb, v.d, v.cur) == v;
    var now := Locked(v.sb, v'.d, v.cur);
    assert Synced(v') <==> now == v';
    hide C.CommitPoint, C.Recover, C.Startable, C.CrashChain, Decode, ByteAt, Ref, Ino, Transaction;
    if !WritesThrough(v, off, |src|) {
      assert now == v'.(ci := v.ci);
      StaleInodeFile(v, v', now, logged, off, src);
    }
  }

  // ---- filewrite ----

  lemma NoHolesNoInodeHole(v: View, lo: nat, hi: nat)
    requires ViewOk(v) && v.ci.size <= MAXFILE * BSIZE && Mapped(v, 0, v.ci.size)
    ensures WritesThrough(v, lo, hi)
  {
    if lo + hi <= v.ci.size {
      forall x {:trigger AddrOf(x / BSIZE)} | lo <= x < lo + hi ensures v.ci.addrs[AddrOf(x / BSIZE)] != 0 {
        assert Ref(v, SlotOf(v.cur, x / BSIZE)) != 0;
      }
    }
  }

  /** Before each chunk of a filewrite of a file without holes the inode is on disk, and the file has no holes. */
  lemma {:induction false} ChunksThrough(vs: seq<View>, ops: seq<set<nat>>, off: nat, src: seq<byte>, j: nat)
    requires Chunks(vs, ops, off, src) && j < |vs| && ViewOk(vs[0]) && vs[0].ci.size <= MAXFILE * BSIZE
    requires Synced(vs[0]) && Mapped(vs[0], 0, vs[0].ci.size)
    ensures ViewOk(vs[j]) && vs[j].ci.size <= MAXFILE * BSIZE && Synced(vs[j]) && Mapped(vs[j], 0, vs[j].ci.size)
  {
    hide Synced, Mapped;
    if j > 0 {
      ChunksThrough(vs, ops, off, src, j - 1);
      assert Wrote(vs[j - 1], vs[j - 1 + 1], ops[j - 1], off + (j - 1) * WRITE_MAX, Piece(src, j - 1));
      NoHolesNoInodeHole(vs[j - 1], off + (j - 1) * WRITE_MAX, |Piece(src, j - 1)|);
    }
  }

  /** After j chunks the file is the old one with the first j chunks of src spliced in. */
  lemma {:induction false} ChunksSplice(vs: seq<View>, ops: seq<set<nat>>, off: nat, src: seq<byte>, j: nat)
    requires Chunks(vs, ops, off, src) && j < |vs| && ViewOk(vs[0]) && vs[0].ci.size <= MAXFILE * BSIZE && off <= vs[0].ci.size
    ensures ViewOk(vs[j]) && vs[j].ci.size <= MAXFILE * BSIZE && vs[j].cur == vs[0].cur && vs[j].sb == vs[0].sb
    ensures File(vs[j]) == Splice(File(vs[0]), off, src[..ChunkEnd(src, j)])
  {
    hide File, Splice;
    if j == 0 {
      assert src[..0] == [];
      FileLength(vs[0]);
      SpliceNothing(File(vs[0]), off);
    } else {
      ChunksSplice(vs, ops, off, src, j - 1);
      var at := ChunkEnd(src, j - 1);
      assert Wrote(vs[j - 1], vs[j - 1 + 1], ops[j - 1], off + (j - 1) * WRITE_MAX, Piece(src, j - 1));
      assert at == (j - 1) * WRITE_MAX && src[..at] + Piece(src, j - 1) == src[..ChunkEnd(src, j)];
      FileLength(vs[0]);
      SpliceTwice(File(vs[0]), off, src[..at], Piece(src, j - 1));
    }
  }

  lemma FileLength(v: View)
    requires ViewOk(v) && v.ci.size <= MAXFILE * BSIZE
    ensures |File(v)| == v.ci.size
  {
  }

  /** Crash atomicity of filewrite, chunk by chunk: after a crash at any block write of the commit of chunk i and any
      recoveries, the file read back is the old one with a number of whole chunks of src spliced in: i or i + 1 of them,
      depending only on whether the log header had been written. */
  lemma FilewriteIsAtomic(g: C.Geometry, d: B.Disk, vs: seq<View>, ops: seq<set<nat>>, off: nat, src: seq<byte>, i: nat,
                          blocks: seq<nat>, data: seq<Block>, k: nat, chain: seq<B.Disk>)
    requires Chunks(vs, ops, off, src) && i < |vs| - 1 && ViewOk(vs[0]) && vs[0].ci.size <= MAXFILE * BSIZE && off <= vs[0].ci.size
    requires Synced(vs[0]) && Mapped(vs[0], 0, vs[0].ci.size)
    requires Transaction(g, d, vs[i].d, vs[i + 1].d, blocks, data) && k <= 2 * |blocks| + 2
    requires |chain| > 0 && C.CrashChain(g, chain) && chain[0] == C.CommitPoint(g, d, blocks, data, k)
    ensures var s := Seen(g, C.Recover(g, chain[|chain| - 1]), vs[i].d);
            && vs[0].sb.On(s)
            && var now := Locked(vs[0].sb, s, vs[0].cur);
               var j := if k <= |blocks| then i else i + 1;
               && now == vs[j] && ViewOk(now) && now.ci.size <= MAXFILE * BSIZE
               && File(now) == Splice(File(vs[0]), off, src[..ChunkEnd(src, j)])
  {
    hide C.CommitPoint, C.Recover, C.Startable, C.CrashChain, Transaction, Synced, Mapped, File, Splice, Written;
    ChunksThrough(vs, ops, off, src, i);
    ChunksSplice(vs, ops, off, src, i);
    ChunksSplice(vs, ops, off, src, i + 1);
    assert Wrote(vs[i], vs[i + 1], ops[i], off + i * WRITE_MAX, Piece(src, i));
    NoHolesNoInodeHole(vs[i], off + i * WRITE_MAX, |Piece(src, i)|);
    WriteIsAtomic(g, d, vs[i], vs[i + 1], ops[i], off + i * WRITE_MAX, Piece(src, i), blocks, data, k, chain);
  }
}
