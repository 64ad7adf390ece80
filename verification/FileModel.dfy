/**
 Files as byte sequences on the views of FsModel: what a run of readi, writei, filewrite or itrunc
 has read, written, allocated, freed and logged, and what follows from it.
 */
module FileModel {
  import opened Basics
  import opened Blocks
  import opened Bits
  import opened FsModel
  import CrashModel
  import GroupCommit

  const WRITE_MAX: nat := (CrashModel.MAXOPBLOCKS - 1 - 1 - 2) / 2 * 512

  // ---- a file, and what writei makes of it ----

  /** The guards of writei let the request through. */
  predicate Fits(size: nat, off: nat, n: nat) {
    off <= size && off + n < WORD_LIMIT && off + n <= MAXFILE * BSIZE
  }

  /** The next chunk of a write of n bytes at off does not fit. */
  predicate Refused(v: View, off: nat, n: nat) {
    n > 0 && !Fits(v.ci.size, off, if n > WRITE_MAX then WRITE_MAX else n)
  }

  /** Whatever has changed since the begin_op is in the log. */
  ghost predicate Recorded(start: Store, disk: Store, logged: set<nat>) {
    start.Keys == disk.Keys && forall x :: x in disk && x !in logged ==> disk[x] == start[x]
  }

  /** The file of the locked inode. */
  function File(v: View): seq<byte>
    requires ViewOk(v) && v.ci.size <= MAXFILE * BSIZE
  {
    Bytes(v, v.cur, 0, v.ci.size)
  }

  function Splice(s: seq<byte>, off: nat, t: seq<byte>): seq<byte>
    requires off <= |s|
  {
    s[..off] + t + if off + |t| < |s| then s[off + |t|..] else []
  }

  /** Every block of cur in the byte range [lo, hi) is there. */
  ghost predicate Mapped(v: View, lo: nat, hi: nat)
    requires ViewOk(v) && hi <= MAXFILE * BSIZE
  {
    forall x {:trigger SlotOf(v.cur, x / BSIZE)} :: lo <= x < hi ==> Ref(v, SlotOf(v.cur, x / BSIZE)) != 0
  }

  /** What a log record of bmap can be: a bitmap block, the indirect block, or the data block itself. */
  ghost predicate BmapRecord(v: View, bn: nat, x: nat)
    requires ViewOk(v) && bn < MAXFILE
  {
    || v.sb.InBitmap(x)
    || (x != 0 && x == Ref(v, SlotOf(v.cur, bn)))
    || (x != 0 && x == Ref(v, Indirect(v.cur)))
  }

  /** What the loop of writei can log for the range [lo, hi): a record of bmap for one of its blocks. */
  ghost predicate WriteRecord(v: View, lo: nat, hi: nat, x: nat)
    requires ViewOk(v) && hi <= MAXFILE * BSIZE
  {
    exists o :: lo <= o < hi && BmapRecord(v, o / BSIZE, x)
  }

  /** The block of the inode on disk is as it was. */
  predicate InodeBlockKept(v: View, v': View) {
    && v.sb == v'.sb && v.cur == v'.cur && v.sb.IBlock(v.cur) in v.d && v.sb.IBlock(v.cur) in v'.d
    && v'.d[v.sb.IBlock(v.cur)] == v.d[v.sb.IBlock(v.cur)]
  }

  /** The place in addrs that block bn of a file hangs on. */
  function AddrOf(bn: nat): nat { if bn < NDIRECT then bn else NDIRECT }

  /** Every place in addrs that the bytes [lo, hi) hang on is taken. */
  predicate NoInodeHole(v: View, lo: nat, hi: nat)
    requires ViewOk(v)
  {
    forall x {:trigger AddrOf(x / BSIZE)} :: lo <= x < hi ==> v.ci.addrs[AddrOf(x / BSIZE)] != 0
  }

  /** The inode on disk is the inode in memory. */
  predicate Synced(v: View)
    requires ViewOk(v)
  {
    v.sb.IBlock(v.cur) in v.d && Decode(v.d[v.sb.IBlock(v.cur)], v.cur % IPB) == v.ci
  }

  /** A completed writei of src at off. */
  ghost predicate Written(v: View, v': View, added: set<nat>, off: nat, src: seq<byte>)
    requires ViewOk(v) && ViewOk(v') && v.cur == v'.cur && v.sb == v'.sb
    requires off <= v.ci.size <= MAXFILE * BSIZE && v'.ci.size <= MAXFILE * BSIZE && off + |src| <= MAXFILE * BSIZE
  {
    && v'.ci == v.ci.(addrs := v'.ci.addrs, size := v'.ci.size)
    && File(v') == Splice(File(v), off, src)
    && (forall x :: x in added ==> WriteRecord(v', off, off + |src|, x) || x == v.sb.IBlock(v.cur))
    // a file without holes has none afterwards
    && (Mapped(v, 0, v.ci.size) ==> Mapped(v', 0, v'.ci.size))
    // the inode on disk is still the one in memory exactly if the file grew or no place in addrs for the range was empty
    && (Synced(v) ==> (Synced(v') <==> off + |src| > v.ci.size || NoInodeHole(v, off, off + |src|)))
    // what the inode on disk holds then, if the file did not grow
    && (off + |src| <= v.ci.size ==> InodeBlockKept(v, v') && v'.ci.size == v.ci.size)
    && Writes(v, v', off, off + |src|)
  }

  /** A completed writei of a file that fits. */
  ghost predicate Wrote(v: View, v': View, added: set<nat>, off: nat, src: seq<byte>) {
    && ViewOk(v) && ViewOk(v') && v.cur == v'.cur && v.sb == v'.sb
    && off <= v.ci.size <= MAXFILE * BSIZE && v'.ci.size <= MAXFILE * BSIZE && off + |src| <= MAXFILE * BSIZE
    && Written(v, v', added, off, src)
  }

  // ---- filewrite: the chunks ----

  /** Where chunk k of a filewrite begins, and the chunk before it ends. */
  function ChunkEnd(src: seq<byte>, k: nat): nat { if k * WRITE_MAX < |src| then k * WRITE_MAX else |src| }

  function Piece(src: seq<byte>, k: nat): seq<byte> { src[ChunkEnd(src, k)..ChunkEnd(src, k + 1)] }

  /** What the operations of a filewrite have done, one after the other: each has written its part of src. */
  ghost predicate Chunks(vs: seq<View>, ops: seq<set<nat>>, off: nat, src: seq<byte>) {
    && 1 <= |vs| <= |ops| + 1
    && forall i :: 0 <= i < |vs| - 1 ==> i * WRITE_MAX < |src| && Wrote(vs[i], vs[i + 1], ops[i], off + i * WRITE_MAX, Piece(src, i))
  }

  lemma NoChunks(v: View, off: nat, src: seq<byte>)
    ensures Chunks([v], [], off, src) && ChunkEnd(src, 0) == 0
  {
  }

  lemma ChunkStarts(src: seq<byte>, k: nat)
    requires ChunkEnd(src, k) < |src|
    ensures var i, n := ChunkEnd(src, k), if |src| - ChunkEnd(src, k) > WRITE_MAX then WRITE_MAX else |src| - ChunkEnd(src, k);
            i == k * WRITE_MAX && i + n == ChunkEnd(src, k + 1) && src[i..i + n] == Piece(src, k)
  {
  }

  lemma OneMoreChunk(vs: seq<View>, ops: seq<set<nat>>, off: nat, src: seq<byte>, v: View, op: set<nat>)
    requires Chunks(vs, ops, off, src) && |ops| == |vs| - 1 && (|vs| - 1) * WRITE_MAX < |src|
    requires Wrote(vs[|vs| - 1], v, op, off + (|vs| - 1) * WRITE_MAX, Piece(src, |vs| - 1))
    ensures Chunks(vs + [v], ops + [op], off, src)
  {
    hide Wrote, Piece;
    var us, qs := vs + [v], ops + [op];
    forall i | 0 <= i < |us| - 1 ensures i * WRITE_MAX < |src| && Wrote(us[i], us[i + 1], qs[i], off + i * WRITE_MAX, Piece(src, i)) {
      if i < |vs| - 1 { assert us[i] == vs[i] && us[i + 1] == vs[i + 1] && qs[i] == ops[i]; }
    }
  }

  lemma RefusedChunk(vs: seq<View>, ops: seq<set<nat>>, off: nat, src: seq<byte>, op: set<nat>)
    requires Chunks(vs, ops, off, src)
    ensures Chunks(vs, ops + [op], off, src)
  {
    hide Wrote, Piece;
  }

  // ---- filewrite: the operations and what they log ----

  /** No operation has logged more than seven blocks. */
  ghost predicate InBudget(ops: seq<set<nat>>) {
    forall i :: 0 <= i < |ops| ==> |ops[i]| <= 7
  }

  lemma NoOps()
    ensures InBudget([])
  {
  }

  lemma OneMoreOp(ops: seq<set<nat>>, op: set<nat>)
    requires InBudget(ops) && |op| <= 7
    ensures InBudget(ops + [op])
  {
  }

  ghost predicate WroteUpTo(v0: View, v: View, off0: nat, src: seq<byte>, i: nat)
    requires ViewOk(v0) && ViewOk(v) && off0 <= v0.ci.size <= MAXFILE * BSIZE && v.ci.size <= MAXFILE * BSIZE && i <= |src|
  {
    File(v) == Splice(File(v0), off0, src[..i])
  }

  /** The files other than cur are the same, down to the last byte. */
  ghost predicate SameFiles(v: View, v': View)
    requires ViewOk(v) && ViewOk(v')
  {
    && SameOthers(v, v')
    && forall i, off {:trigger ByteAt(v', i, off)} :: 0 <= i < v.sb.ninodes && i != v.cur && 0 <= off < MAXFILE * BSIZE ==>
         ByteAt(v', i, off) == ByteAt(v, i, off)
  }

  /** filewrite has written the first i bytes of src; the other files are as they were. */
  ghost predicate FilewriteAt(v0: View, v: View, off0: nat, src: seq<byte>, i: nat)
    requires ViewOk(v0) && ViewOk(v) && i <= |src|
  {
    && SameFiles(v0, v) && v0.ci.size <= MAXFILE * BSIZE && v.ci.size <= MAXFILE * BSIZE
    && if i == 0 then v == v0 else off0 <= v0.ci.size && WroteUpTo(v0, v, off0, src, i)
  }

  lemma FilewriteStart(v0: View, off0: nat, src: seq<byte>)
    requires ViewOk(v0) && v0.ci.size <= MAXFILE * BSIZE
    ensures FilewriteAt(v0, v0, off0, src, 0)
  {
  }

  lemma FilewriteKeeps(v0: View, v: View, off0: nat, src: seq<byte>, i: nat)
    requires ViewOk(v0) && ViewOk(v) && i <= |src| && FilewriteAt(v0, v, off0, src, i)
    ensures SameFiles(v0, v) && v0.ci.size <= MAXFILE * BSIZE && v.ci.size <= MAXFILE * BSIZE
    ensures v0.sb == v.sb && v0.cur == v.cur
    ensures i > 0 ==> off0 <= v0.ci.size && File(v) == Splice(File(v0), off0, src[..i])
  {
  }

  lemma AnyWriteKeepsFiles(v0: View, v: View, v': View, lo: nat, hi: nat)
    requires ViewOk(v0) && ViewOk(v) && ViewOk(v') && SameFiles(v0, v) && (v' == v || Writes(v, v', lo, hi))
    ensures SameFiles(v0, v')
  {
    hide Ref, Ino, ByteAt, ViewOk;
    forall i | 0 <= i < v.sb.ninodes && i != v.cur ensures Ino(v', i) == Ino(v0, i) { assert Ino(v, i) == Ino(v0, i); }
    forall i, off | 0 <= i < v.sb.ninodes && i != v.cur && 0 <= off < MAXFILE * BSIZE
      ensures ByteAt(v', i, off) == ByteAt(v0, i, off) { assert ByteAt(v, i, off) == ByteAt(v0, i, off); }
  }

  lemma ChunkFailed(v0: View, v: View, v': View, off0: nat, src: seq<byte>, i: nat, n: nat, panicked: bool)
    requires ViewOk(v0) && ViewOk(v) && ViewOk(v') && i <= |src| && FilewriteAt(v0, v, off0, src, i)
    requires if panicked then Writes(v, v', off0 + i, off0 + i + n) else v' == v
    ensures if panicked then SameFiles(v0, v') else FilewriteAt(v0, v', off0, src, i)
  {
    if panicked { AnyWriteKeepsFiles(v0, v, v', off0 + i, off0 + i + n); }
  }

  lemma SpliceTwice(s: seq<byte>, off: nat, t: seq<byte>, u: seq<byte>)
    requires off <= |s|
    ensures Splice(Splice(s, off, t), off + |t|, u) == Splice(s, off, t + u)
  {
  }

  lemma SpliceNothing(s: seq<byte>, off: nat)
    requires off <= |s|
    ensures Splice(s, off, []) == s
  {
  }

  /** The block of slot bn, or 0. */
  function Target(v: View, bn: nat): nat
    requires ViewOk(v)
  {
    if bn < MAXFILE then Ref(v, SlotOf(v.cur, bn)) else 0
  }

  lemma {:induction false} AtMost(s: set<nat>, l: seq<nat>)
    requires forall x :: x in s ==> x in l
    ensures |s| <= |l|
  {
    if l == [] {
      assert s == {};
    } else {
      AtMost(s - {l[0]}, l[1..]);
    }
  }

  /** At most four data blocks, the indirect block, the inode's block and the one bitmap block. */
  lemma RecordsBounded(v: View, added: set<nat>, lo: nat, hi: nat)
    requires ViewOk(v) && lo < hi <= lo + WRITE_MAX && hi <= MAXFILE * BSIZE && v.sb.size <= BPB
    requires forall x :: x in added ==> WriteRecord(v, lo, hi, x) || x == v.sb.IBlock(v.cur)
    ensures |added| <= 7
  {
    var bn := lo / BSIZE;
    var a, b, c, d := Target(v, bn), Target(v, bn + 1), Target(v, bn + 2), Target(v, bn + 3);
    var e, f, g := Ref(v, Indirect(v.cur)), v.sb.IBlock(v.cur), v.sb.bmapstart;
    hide Ref, Ino;
    forall x | x in added ensures x in [a, b, c, d, e, f, g] {
      if x != f {
        var o :| lo <= o < hi && BmapRecord(v, o / BSIZE, x);
        assert bn <= o / BSIZE <= bn + 3;
        assert v.sb.InBitmap(x) ==> x == g;
      }
    }
    AtMost(added, [a, b, c, d, e, f, g]);
  }

  /** One chunk of filewrite continues the write, and stays within the budget of an operation. */
  lemma ChunkWritten(v0: View, v: View, v': View, added: set<nat>, off0: nat, src: seq<byte>, i: nat, n: nat)
    requires ViewOk(v0) && ViewOk(v) && ViewOk(v') && v0.sb == v.sb == v'.sb && v0.cur == v.cur == v'.cur
    requires v0.ci.size <= MAXFILE * BSIZE && v.ci.size <= MAXFILE * BSIZE && v'.ci.size <= MAXFILE * BSIZE
    requires i + n <= |src| && 0 < n <= WRITE_MAX && off0 + i <= v.ci.size && off0 + i + n <= MAXFILE * BSIZE
    requires Written(v, v', added, off0 + i, src[i..i + n]) && Writes(v, v', off0 + i, off0 + i + n)
    requires FilewriteAt(v0, v, off0, src, i)
    ensures FilewriteAt(v0, v', off0, src, i + n)
    ensures v.sb.size <= BPB ==> |added| <= 7
  {
    hide ByteAt, Ref, Ino, ViewOk, Bytes, WriteRecord, Synced, Mapped, NoInodeHole, Writes, SameFiles, InodeBlockKept, Splice;
    var s := File(v0);
    AnyWriteKeepsFiles(v0, v, v', off0 + i, off0 + i + n);
    if i == 0 { SpliceNothing(s, off0); assert src[..0] == []; }
    assert src[..i] + src[i..i + n] == src[..i + n];
    SpliceTwice(s, off0, src[..i], src[i..i + n]);
    if v.sb.size <= BPB {
      RecordsBounded(v', added, off0 + i, off0 + i + n);
    }
  }

  ghost predicate WrittenBut(v: View, lo: nat, hi: nat, added: set<nat>, b: nat)
    requires ViewOk(v) && hi <= MAXFILE * BSIZE
  {
    forall x :: x in added ==> WriteRecord(v, lo, hi, x) || x == b
  }

  /** What a writei that panicked has logged: records of its loop, and perhaps a block that has not got into its slot. */
  ghost predicate NearlyWritten(v: View, lo: nat, hi: nat, added: set<nat>)
    requires ViewOk(v) && hi <= MAXFILE * BSIZE
  {
    exists b: nat :: WrittenBut(v, lo, hi, added, b)
  }

  /** The same before a panic: one block may not have got into its slot. */
  lemma NearlyBounded(v: View, added: set<nat>, lo: nat, hi: nat)
    requires ViewOk(v) && lo < hi <= lo + WRITE_MAX && hi <= MAXFILE * BSIZE && v.sb.size <= BPB
    requires NearlyWritten(v, lo, hi, added)
    ensures |added| <= 8
  {
    var b: nat :| WrittenBut(v, lo, hi, added, b);
    RecordsBounded(v, added - {b}, lo, hi);
    assert |added| <= |added - {b}| + 1;
  }

  /** Operations like those of filewrite never make log_write panic on the log of mkfs, however many run at a time. */
  lemma FilewriteFitsLog(ops: seq<set<nat>>, i: nat)
    requires InBudget(ops) && i < |ops| && ops[i] != {}
    ensures !GroupCommit.CanPanic(CrashModel.LOGSIZE, |ops[i]|)
  {
    GroupCommit.PanicExactlyBeyondBound(CrashModel.LOGSIZE, |ops[i]|);
  }

  // ---- itrunc ----

  /** Some blocks of cur have left their slots; nothing has happened to the other files. */
  ghost predicate Shrunk(v: View, v': View, owner: map<nat, Slot>, owner': map<nat, Slot>)
    requires ViewOk(v) && ViewOk(v')
  {
    && SameFiles(v, v')
    && (forall b :: b in owner' ==> b in owner && owner'[b] == owner[b])
    && (forall b :: b in owner && b !in owner' ==> owner[b].i == v.cur)
  }

  function OthersOwn(owner: map<nat, Slot>, i: nat): map<nat, Slot> {
    map b | b in owner && owner[b].i != i :: owner[b]
  }

  lemma ShrunkSelf(v: View, owner: map<nat, Slot>)
    requires ViewOk(v)
    ensures Shrunk(v, v, owner, owner)
  {
  }

  lemma ShrunkTrans(v: View, v1: View, v2: View, o: map<nat, Slot>, o1: map<nat, Slot>, o2: map<nat, Slot>)
    requires ViewOk(v) && ViewOk(v1) && ViewOk(v2) && Shrunk(v, v1, o, o1) && Shrunk(v1, v2, o1, o2)
    ensures Shrunk(v, v2, o, o2)
  {
    hide Ref, Ino, ByteAt, ViewOk;
    forall i | 0 <= i < v.sb.ninodes && i != v.cur ensures Ino(v2, i) == Ino(v, i) { assert Ino(v1, i) == Ino(v, i); }
    forall i, off | 0 <= i < v.sb.ninodes && i != v.cur && 0 <= off < MAXFILE * BSIZE
      ensures ByteAt(v2, i, off) == ByteAt(v, i, off) { assert ByteAt(v1, i, off) == ByteAt(v, i, off); }
  }

  lemma ShrunkByOne(v: View, v1: View, v2: View, owner: map<nat, Slot>, gone: set<nat>)
    requires ViewOk(v) && ViewOk(v1) && ViewOk(v2) && SameOthers(v, v1) && SameBytesBut(v, v1, 0, 0) && SameFiles(v1, v2)
    requires forall b :: b in gone ==> b in owner && owner[b].i == v.cur
    ensures Shrunk(v, v2, owner, Without(owner, gone))
  {
    hide Ref, Ino, ByteAt, ViewOk;
    ShrunkTrans(v, v1, v2, owner, owner, Without(owner, gone));
  }

  function BitmapOf(sb: Super, bs: set<nat>): set<nat> { set b | b in bs :: sb.BBlock(b) }

  function OwnedBy(owner: map<nat, Slot>, i: nat): set<nat> { set b | b in owner && owner[b].i == i }

  lemma NothingFreed(sb: Super, l: set<nat>, o: map<nat, Slot>)
    ensures l + BitmapOf(sb, o.Keys - o.Keys) == l
  {
    assert o.Keys - o.Keys == {};
  }

  lemma OneFreed(sb: Super, l: set<nat>, o: map<nat, Slot>, b: nat)
    requires b in o
    ensures l + BitmapOf(sb, o.Keys - Without(o, {b}).Keys) == l + {sb.BBlock(b)}
  {
    assert o.Keys - Without(o, {b}).Keys == {b};
    assert BitmapOf(sb, {b}) == {sb.BBlock(b)};
  }

  lemma BitmapOfJoin(sb: Super, s: set<nat>, t: set<nat>)
    ensures BitmapOf(sb, s + t) == BitmapOf(sb, s) + BitmapOf(sb, t)
  {
  }

  lemma BitmapOfMore(sb: Super, l: set<nat>, s: set<nat>, b: nat)
    ensures l + BitmapOf(sb, s + {b}) == l + BitmapOf(sb, s) + {sb.BBlock(b)}
  {
    BitmapOfJoin(sb, s, {b});
    assert BitmapOf(sb, {b}) == {sb.BBlock(b)};
  }

  lemma MoreFreed(sb: Super, l: set<nat>, v: View, v1: View, v2: View, o: map<nat, Slot>, o1: map<nat, Slot>, o2: map<nat, Slot>)
    requires ViewOk(v) && ViewOk(v1) && ViewOk(v2) && Shrunk(v, v1, o, o1) && Shrunk(v1, v2, o1, o2)
    ensures l + BitmapOf(sb, o.Keys - o1.Keys) + BitmapOf(sb, o1.Keys - o2.Keys) == l + BitmapOf(sb, o.Keys - o2.Keys)
  {
    hide SameFiles, BitmapOf;
    assert (o.Keys - o1.Keys) + (o1.Keys - o2.Keys) == o.Keys - o2.Keys;
    BitmapOfJoin(sb, o.Keys - o1.Keys, o1.Keys - o2.Keys);
  }

  lemma BitmapOfWithin(sb: Super, s: set<nat>, t: set<nat>)
    requires s <= t
    ensures BitmapOf(sb, s) <= BitmapOf(sb, t)
  {
  }

  lemma FreedWithin(sb: Super, v: View, v1: View, o: map<nat, Slot>, o1: map<nat, Slot>)
    requires ViewOk(v) && ViewOk(v1) && Shrunk(v, v1, o, o1)
    ensures BitmapOf(sb, o.Keys - o1.Keys) <= BitmapOf(sb, OwnedBy(o, v.cur))
  {
    hide SameFiles, BitmapOf;
    BitmapOfWithin(sb, o.Keys - o1.Keys, OwnedBy(o, v.cur));
  }

  lemma OwnedLess(sb: Super, v: View, v1: View, o: map<nat, Slot>, o1: map<nat, Slot>)
    requires ViewOk(v) && ViewOk(v1) && Shrunk(v, v1, o, o1)
    ensures BitmapOf(sb, OwnedBy(o1, v.cur)) <= BitmapOf(sb, OwnedBy(o, v.cur))
  {
    hide SameFiles, BitmapOf;
    BitmapOfWithin(sb, OwnedBy(o1, v.cur), OwnedBy(o, v.cur));
  }

  /** The indirect block and what it held have left their slots. */
  lemma IndirectGone(v: View, v2: View, owner: map<nat, Slot>, gone: set<nat>)
    requires ViewOk(v) && ViewOk(v2) && ViewOk(WithAddr(v2, NDIRECT, 0)) && Keeps(v, v2)
    requires SameOthers(v2, WithAddr(v2, NDIRECT, 0)) && forall b :: b in gone ==> b in owner && owner[b].i == v.cur
    requires forall i, off {:trigger ByteAt(WithAddr(v2, NDIRECT, 0), i, off)} ::
               0 <= i < v2.sb.ninodes && i != v2.cur && 0 <= off < MAXFILE * BSIZE ==>
                 ByteAt(WithAddr(v2, NDIRECT, 0), i, off) == ByteAt(v2, i, off)
    ensures Shrunk(v, WithAddr(v2, NDIRECT, 0), owner, Without(owner, gone))
  {
    hide Ref, Ino, ByteAt, ViewOk;
    ShrunkByOne(v, v2, WithAddr(v2, NDIRECT, 0), owner, gone);
  }

  lemma GoneFreed(sb: Super, l: set<nat>, o: map<nat, Slot>, i: nat, gone: set<nat>)
    requires forall b :: b in gone ==> b in o && o[b].i == i
    ensures o.Keys - Without(o, gone).Keys == gone && l + BitmapOf(sb, gone) <= l + BitmapOf(sb, OwnedBy(o, i))
  {
    assert o.Keys - Without(o, gone).Keys == gone;
    BitmapOfWithin(sb, gone, OwnedBy(o, i));
  }

  /** On a disk with one bitmap block itrunc logs at most that and the block of the inode. */
  lemma ItruncLogsTwo(sb: Super, owner: map<nat, Slot>, i: nat)
    requires sb.size <= BPB && forall b :: b in owner ==> b < sb.size
    ensures BitmapOf(sb, OwnedBy(owner, i)) + {sb.IBlock(i)} <= {sb.bmapstart, sb.IBlock(i)}
    ensures |BitmapOf(sb, OwnedBy(owner, i)) + {sb.IBlock(i)}| <= 2
  {
    AtMost(BitmapOf(sb, OwnedBy(owner, i)) + {sb.IBlock(i)}, [sb.bmapstart, sb.IBlock(i)]);
  }

  lemma ShrunkFiles(v: View, v': View, o: map<nat, Slot>, o': map<nat, Slot>)
    requires ViewOk(v) && ViewOk(v') && Shrunk(v, v', o, o')
    ensures SameFiles(v, v')
  {
  }

  lemma SameFilesTrans(v: View, v1: View, v2: View)
    requires ViewOk(v) && ViewOk(v1) && ViewOk(v2) && SameFiles(v, v1) && SameFiles(v1, v2)
    ensures SameFiles(v, v2)
  {
    ShrunkTrans(v, v1, v2, map[], map[], map[]);
  }

  lemma BytesSameFiles(v: View, v': View)
    requires ViewOk(v) && ViewOk(v') && SameOthers(v, v') && SameBytesBut(v, v', 0, 0)
    ensures SameFiles(v, v')
  {
    hide Ref, Ino, ByteAt;
  }

  lemma KeepsFiles(v: View, v': View)
    requires ViewOk(v) && ViewOk(v') && Keeps(v, v')
    ensures SameFiles(v, v')
  {
    hide Ref, Ino, ByteAt;
  }

  /** With no address left, nothing of the inode is owned any more. */
  lemma AllFreed(v: View, v2: View, o: map<nat, Slot>, o2: map<nat, Slot>)
    requires ViewOk(v) && ViewOk(v2) && Shrunk(v, v2, o, o2) && Owned(v2, o2, {}, {})
    requires forall k :: 0 <= k <= NDIRECT ==> v2.ci.addrs[k] == 0
    ensures o.Keys - o2.Keys == OwnedBy(o, v.cur)
  {
    forall b | b in o2 ensures o2[b].i != v.cur {
      assert Ref(v2, o2[b]) == b != 0;
    }
  }

  lemma InnerStart(v: View, owner: map<nat, Slot>, a: nat, l: set<nat>)
    requires ViewOk(v) && Owned(v, owner, {}, {}) && a == v.ci.addrs[NDIRECT] != 0
    ensures a in v.d && a >= v.sb.datastart && InnerBlocks(v, 0) == {} && l + BitmapOf(v.sb, InnerBlocks(v, 0)) == l
    ensures SameRefs(v, v) && SameOthers(v, v) && SameBytesBut(v, v, 0, 0)
  {
    assert Ref(v, Indirect(v.cur)) == a;
  }

  /** The blocks of the indirect block are the inode's. */
  lemma InnerOwned(v: View, v0: View, owner: map<nat, Slot>, j: nat, sb: Super, l: set<nat>)
    requires ViewOk(v) && ViewOk(v0) && j <= NINDIRECT && SameRefs(v0, v) && Owned(v, owner, {}, InnerBlocks(v0, j))
    ensures l + BitmapOf(sb, InnerBlocks(v0, j)) <= l + BitmapOf(sb, OwnedBy(owner, v.cur))
  {
    hide Ref, Ino, BitmapOf;
    forall m | 0 <= m < j && Ref(v0, Inner(v0.cur, m)) != 0
      ensures var b := Ref(v0, Inner(v0.cur, m)); b in owner && owner[b].i == v.cur
    {
      assert Ref(v, Inner(v.cur, m)) == Ref(v0, Inner(v0.cur, m));
    }
    BitmapOfWithin(sb, InnerBlocks(v0, j), OwnedBy(owner, v.cur));
  }

  /** The next entry of the indirect block of cur. */
  lemma InnerNext(v: View, v0: View, owner: map<nat, Slot>, j: nat, a: nat)
    requires ViewOk(v) && ViewOk(v0) && SameRefs(v0, v) && j < NINDIRECT && v0.ci == v.ci
    requires a == v.ci.addrs[NDIRECT] != 0 && a in v.d && Owned(v, owner, {}, InnerBlocks(v0, j))
    ensures var w := Word(v.d[a], j);
            InnerBlocks(v0, j + 1) == if w == 0 then InnerBlocks(v0, j) else InnerBlocks(v0, j) + {w}
    ensures var w := Word(v.d[a], j); w != 0 ==> w in owner && w !in InnerBlocks(v0, j)
  {
    var w := Word(v.d[a], j);
    assert Ref(v, Inner(v.cur, j)) == w == Ref(v0, Inner(v0.cur, j));
    assert w != 0 ==> owner[w] == Inner(v.cur, j);
    hide Ino, Word;
    forall m | 0 <= m < j && Ref(v0, Inner(v0.cur, m)) != 0 ensures Ref(v0, Inner(v0.cur, m)) != w {
      assert Ref(v, Inner(v.cur, m)) == Ref(v0, Inner(v0.cur, m));
    }
  }

  lemma SameInner(v: View, v': View)
    requires ViewOk(v) && ViewOk(v') && SameRefs(v, v')
    ensures InnerBlocks(v', NINDIRECT) == InnerBlocks(v, NINDIRECT)
  {
    hide Ref;
    forall m | 0 <= m < NINDIRECT ensures Ref(v', Inner(v.cur, m)) == Ref(v, Inner(v.cur, m)) {
      assert SlotOk(v, Inner(v.cur, m));
    }
  }

  lemma IndirectNotInner(v: View, owner: map<nat, Slot>)
    requires ViewOk(v) && v.ci.addrs[NDIRECT] != 0 && Owned(v, owner, {}, InnerBlocks(v, NINDIRECT))
    ensures v.ci.addrs[NDIRECT] in owner && v.ci.addrs[NDIRECT] !in InnerBlocks(v, NINDIRECT)
    ensures forall b :: b in InnerBlocks(v, NINDIRECT) + {v.ci.addrs[NDIRECT]} ==> b in owner && owner[b].i == v.cur
  {
    var a := v.ci.addrs[NDIRECT];
    assert Ref(v, Indirect(v.cur)) == a;
    hide Ref, Ino;
  }

  /** The size has been set and the inode written. */
  ghost predicate Grown(v: View, v': View, n: nat)
    requires ViewOk(v) && ViewOk(v')
  {
    && ViewOk(WithSize(v, n))
    && Keeps(v, WithSize(v, n)) && Keeps(WithSize(v, n), v') && Synced(v') && v'.ci == WithSize(v, n).ci
  }

  /** With all its addresses 0, an inode owns nothing. */
  lemma NothingLeft(v0: View, v2: View, v3: View, o0: map<nat, Slot>, owner: map<nat, Slot>)
    requires ViewOk(v0) && ViewOk(v2) && ViewOk(v3) && Shrunk(v0, v2, o0, owner) && Grown(v2, v3, 0)
    requires Owned(v3, owner, {}, {}) && forall k :: 0 <= k <= NDIRECT ==> v3.ci.addrs[k] == 0
    ensures owner == OthersOwn(o0, v0.cur) && SameFiles(v0, v3)
  {
    forall b | b in owner ensures owner[b].i != v0.cur {
      assert Ref(v3, owner[b]) == b != 0;
    }
    hide Ref, Ino, ByteAt, ViewOk, Owned;
    KeepsTrans(v2, WithSize(v2, 0), v3);
    assert Shrunk(v2, v3, owner, owner);
    ShrunkTrans(v0, v2, v3, o0, owner, owner);
    assert owner == OthersOwn(o0, v0.cur);
  }

  // ---- writei: the loop and the size ----

  lemma SplicedFile(v: View, v': View, off: nat, src: seq<byte>)
    requires ViewOk(v) && ViewOk(v') && Writes(v, v', off, off + |src|)
    requires off <= v.ci.size <= MAXFILE * BSIZE && off + |src| <= MAXFILE * BSIZE
    requires v'.ci.size == if off + |src| > v.ci.size then off + |src| else v.ci.size
    requires Bytes(v', v.cur, off, off + |src|) == src
    ensures File(v') == Splice(File(v), off, src)
  {
    var f := Splice(File(v), off, src);
    hide ByteAt, Ref, Ino, ViewOk;
    assert |File(v')| == |f|;
    forall k: nat | k < |f| ensures File(v')[k] == f[k] {
      if off <= k < off + |src| {
        assert Bytes(v', v.cur, off, off + |src|)[k - off] == ByteAt(v', v.cur, off + (k - off));
      } else {
        assert ByteAt(v', v.cur, k) == ByteAt(v, v.cur, k);
      }
    }
  }

  lemma MappedAfter(v: View, v': View, off: nat, hi: nat)
    requires ViewOk(v) && ViewOk(v') && RefsGrow(v, v') && off <= v.ci.size <= MAXFILE * BSIZE && hi <= MAXFILE * BSIZE
    requires Mapped(v, 0, v.ci.size) && Mapped(v', off, hi)
    ensures Mapped(v', 0, hi) && Mapped(v', 0, v.ci.size)
  {
    hide Ref;
    forall x | 0 <= x < v.ci.size || 0 <= x < hi ensures x < MAXFILE * BSIZE && Ref(v', SlotOf(v.cur, x / BSIZE)) != 0 {
      if x < v.ci.size { assert SlotOk(v, SlotOf(v.cur, x / BSIZE)); }
    }
  }

  /** For the bytes [lo, hi) the places in addrs are taken, the inode in memory has changed only if one of them was empty,
      and the inode on disk has not changed. */
  predicate AddrsTaken(v0: View, v: View, lo: nat, hi: nat)
    requires ViewOk(v0) && ViewOk(v)
  {
    && InodeBlockKept(v0, v) && v.ci == v0.ci.(addrs := v.ci.addrs)
    && NoInodeHole(v, lo, hi) && (NoInodeHole(v0, lo, hi) ==> v.ci == v0.ci)
  }

  /**
   From v0 to v, exactly the bytes done have been written at lo, for which the blocks
   of added have been logged.
   */
  ghost predicate WriteProgress(v0: View, v: View, added: set<nat>, lo: nat, hi: nat, done: seq<byte>)
    requires ViewOk(v0) && ViewOk(v) && lo <= hi <= MAXFILE * BSIZE
  {
    && Writes(v0, v, lo, hi) && Bytes(v, v.cur, lo, hi) == done && Mapped(v, lo, hi)
    && AddrsTaken(v0, v, lo, hi)
    && forall x :: x in added ==> WriteRecord(v, lo, hi, x)
  }

  /** The inode in memory has stayed as it was exactly if no place in addrs for the range was empty. */
  lemma TakenExactly(v0: View, v: View, lo: nat, hi: nat)
    requires ViewOk(v0) && ViewOk(v) && AddrsTaken(v0, v, lo, hi)
    ensures v.ci == v0.ci <==> NoInodeHole(v0, lo, hi)
    ensures Synced(v0) ==> (Synced(v) <==> NoInodeHole(v0, lo, hi))
  {
    hide Decode;
  }

  /** writei inside the file. */
  lemma StayedWithin(v0: View, v1: View, l0: set<nat>, l1: set<nat>, off: nat, src: seq<byte>)
    requires ViewOk(v0) && ViewOk(v1) && off <= v0.ci.size <= MAXFILE * BSIZE && off + |src| <= MAXFILE * BSIZE
    requires WriteProgress(v0, v1, l1 - l0, off, off + |src|, src) && (|src| == 0 || off + |src| <= v0.ci.size)
    ensures v1.sb == v0.sb && v1.cur == v0.cur && v1.ci.size == v0.ci.size && Written(v0, v1, l1 - l0, off, src)
  {
    hide ByteAt, Ref, Ino, ViewOk, Bytes, Synced, WriteRecord;
    TakenExactly(v0, v1, off, off + |src|);
    SplicedFile(v0, v1, off, src);
    if Mapped(v0, 0, v0.ci.size) {
      MappedAfter(v0, v1, off, off + |src|);
    }
  }

  lemma SameAfterKeeps(v: View, v': View, lo: nat, hi: nat)
    requires ViewOk(v) && ViewOk(v') && Keeps(v, v') && lo <= hi <= MAXFILE * BSIZE
    ensures Bytes(v', v.cur, lo, hi) == Bytes(v, v.cur, lo, hi)
  {
    hide ByteAt, Ref, Ino;
    forall k | 0 <= k < hi - lo ensures Bytes(v', v.cur, lo, hi)[k] == Bytes(v, v.cur, lo, hi)[k] {
      assert ByteAt(v', v.cur, lo + k) == ByteAt(v, v.cur, lo + k);
    }
  }

  lemma MappedKeeps(v: View, v': View, lo: nat, hi: nat)
    requires ViewOk(v) && ViewOk(v') && Keeps(v, v') && hi <= MAXFILE * BSIZE && Mapped(v, lo, hi)
    ensures Mapped(v', lo, hi)
  {
    hide Ref, ByteAt, Ino;
    forall x | lo <= x < hi ensures Ref(v', SlotOf(v.cur, x / BSIZE)) != 0 { assert SlotOk(v, SlotOf(v.cur, x / BSIZE)); }
  }

  lemma RecordsSame(v: View, v': View, bn: nat)
    requires ViewOk(v) && ViewOk(v') && RefsGrow(v, v') && bn < MAXFILE && Ref(v, SlotOf(v.cur, bn)) != 0
    ensures Ref(v', SlotOf(v.cur, bn)) == Ref(v, SlotOf(v.cur, bn))
    ensures BmapRecord(v', bn, Ref(v, SlotOf(v.cur, bn)))
    ensures forall x :: BmapRecord(v, bn, x) ==> BmapRecord(v', bn, x)
  {
    hide Ref;
    assert SlotOk(v, SlotOf(v.cur, bn)) && SlotOk(v, Indirect(v.cur));
  }

  lemma RecordKeeps(v: View, v': View, lo: nat, hi: nat, x: nat)
    requires ViewOk(v) && ViewOk(v') && Keeps(v, v') && hi <= MAXFILE * BSIZE && Mapped(v, lo, hi) && WriteRecord(v, lo, hi, x)
    ensures WriteRecord(v', lo, hi, x)
  {
    var o :| lo <= o < hi && BmapRecord(v, o / BSIZE, x);
    assert Ref(v, SlotOf(v.cur, o / BSIZE)) != 0;
    hide Ref, BmapRecord;
    RecordsSame(v, v', o / BSIZE);
  }

  lemma KeepsWrites(v: View, v': View, lo: nat, hi: nat)
    requires ViewOk(v) && ViewOk(v') && Keeps(v, v') && lo <= hi
    ensures Writes(v, v', lo, hi)
  {
    hide Ref, Ino, ByteAt, ViewOk;
  }

  /** writei past the end of the file: the new size is set and the inode is written. */
  lemma GrewTo(v0: View, v1: View, v2: View, l0: set<nat>, l1: set<nat>, l2: set<nat>, off: nat, src: seq<byte>)
    requires ViewOk(v0) && ViewOk(v1) && ViewOk(v2) && off <= v0.ci.size <= MAXFILE * BSIZE && off + |src| <= MAXFILE * BSIZE
    requires WriteProgress(v0, v1, l1 - l0, off, off + |src|, src) && off + |src| > v0.ci.size
    requires Grown(v1, v2, off + |src|) && l2 == l1 + {v0.sb.IBlock(v0.cur)}
    ensures Writes(v0, v2, off, off + |src|) && Written(v0, v2, l2 - l0, off, src)
  {
    var hi := off + |src|;
    hide ByteAt, Ref, Ino, ViewOk, Bytes, Synced, BmapRecord;
    KeepsTrans(v1, WithSize(v1, hi), v2);
    KeepsWrites(v1, v2, hi, hi);
    WritesTrans(v0, v1, v2, off, hi, hi);
    SameAfterKeeps(v1, v2, off, hi);
    SplicedFile(v0, v2, off, src);
    MappedKeeps(v1, v2, off, hi);
    if Mapped(v0, 0, v0.ci.size) { MappedAfter(v0, v2, off, hi); }
    forall x | x in l2 - l0 ensures WriteRecord(v2, off, hi, x) || x == v0.sb.IBlock(v0.cur) {
      if x in l1 { RecordKeeps(v1, v2, off, hi, x); }
    }
  }

  /** bmap has made sure of the place in addrs for block bn: the inode in memory has changed only if it was empty, and the
      inode on disk has not changed. */
  predicate TookAddr(v: View, v': View, bn: nat)
    requires ViewOk(v) && ViewOk(v')
  {
    var k := AddrOf(bn);
    && InodeBlockKept(v, v') && v'.ci.addrs[k] != 0 && v'.ci == v.ci.(addrs := v.ci.addrs[k := v'.ci.addrs[k]])
    && (v.ci.addrs[k] != 0 ==> v'.ci == v.ci)
  }

  lemma TookAddrThen(v0: View, v1: View, v2: View, bn: nat)
    requires ViewOk(v0) && ViewOk(v1) && ViewOk(v2) && TookAddr(v0, v1, bn) && InodeBlockKept(v1, v2) && v2.ci == v1.ci
    ensures TookAddr(v0, v2, bn)
  {
  }

  lemma SameBlock(off: nat, x: nat, m: nat)
    requires off <= x < off + m && m <= BSIZE - off % BSIZE
    ensures x / BSIZE == off / BSIZE
  {
  }

  lemma AddrsTakenMore(v0: View, v: View, v': View, lo: nat, off: nat, m: nat)
    requires ViewOk(v0) && ViewOk(v) && ViewOk(v') && lo <= off && 0 < m <= BSIZE - off % BSIZE
    requires AddrsTaken(v0, v, lo, off) && TookAddr(v, v', off / BSIZE)
    ensures AddrsTaken(v0, v', lo, off + m)
  {
    forall x {:trigger AddrOf(x / BSIZE)} | lo <= x < off + m ensures v'.ci.addrs[AddrOf(x / BSIZE)] != 0 {
      if x < off { assert v.ci.addrs[AddrOf(x / BSIZE)] != 0; } else { SameBlock(off, x, m); }
    }
    if NoInodeHole(v0, lo, off + m) {
      assert off < off + m && AddrOf(off / BSIZE) <= NDIRECT;
      assert v0.ci.addrs[AddrOf(off / BSIZE)] != 0;
    }
  }

  lemma WriteStart(v: View, lo: nat)
    requires ViewOk(v) && lo <= MAXFILE * BSIZE
    ensures WriteProgress(v, v, {}, lo, lo, [])
  {
  }

  lemma WriteDone(v0: View, v: View, added: set<nat>, lo: nat, hi: nat, done: seq<byte>)
    requires ViewOk(v0) && ViewOk(v) && lo <= hi <= MAXFILE * BSIZE && WriteProgress(v0, v, added, lo, hi, done)
    ensures Writes(v0, v, lo, hi)
  {
  }

  ghost predicate NearlyBut(v: View, bn: nat, added: set<nat>, b: nat)
    requires ViewOk(v) && bn < MAXFILE
  {
    forall x :: x in added ==> BmapRecord(v, bn, x) || x == b
  }

  /** What a bmap that panicked has logged: records of bmap, and perhaps a block that has not got into its slot. */
  ghost predicate NearlyRecords(v: View, bn: nat, added: set<nat>)
    requires ViewOk(v) && bn < MAXFILE
  {
    exists b: nat :: NearlyBut(v, bn, added, b)
  }

  lemma AllRecordsNearly(v: View, bn: nat, added: set<nat>)
    requires ViewOk(v) && bn < MAXFILE && forall x :: x in added ==> BmapRecord(v, bn, x)
    ensures NearlyRecords(v, bn, added)
  {
    hide BmapRecord;
    assert NearlyBut(v, bn, added, 0);
  }

  lemma RecordsMore(v: View, v': View, lo: nat, off: nat, m: nat, x: nat)
    requires ViewOk(v) && ViewOk(v') && lo <= off && off + m <= MAXFILE * BSIZE
    requires RefsGrow(v, v') && Mapped(v, lo, off) && WriteRecord(v, lo, off, x)
    ensures WriteRecord(v', lo, off + m, x)
  {
    var o :| lo <= o < off && BmapRecord(v, o / BSIZE, x);
    assert Ref(v, SlotOf(v.cur, o / BSIZE)) != 0;
    hide Ref, BmapRecord;
    RecordsSame(v, v', o / BSIZE);
  }

  lemma WriteStopped(v0: View, v: View, v': View, l0: set<nat>, l: set<nat>, l': set<nat>,
                     lo: nat, off: nat, mid: nat, hi: nat, done: seq<byte>)
    requires ViewOk(v0) && ViewOk(v) && ViewOk(v') && lo <= off < mid <= hi <= MAXFILE * BSIZE
    requires WriteProgress(v0, v, l - l0, lo, off, done) && Writes(v, v', off, mid)
    requires NearlyRecords(v', off / BSIZE, l' - l)
    ensures Writes(v0, v', lo, hi) && NearlyWritten(v', lo, hi, l' - l0)
  {
    WritesTrans(v0, v, v', lo, off, mid);
    hide Ref, Ino, ByteAt, ViewOk, BmapRecord, AddrsTaken;
    var b: nat :| NearlyBut(v', off / BSIZE, l' - l, b);
    forall x | x in l' - l0 ensures WriteRecord(v', lo, hi, x) || x == b {
      if x in l {
        RecordsMore(v, v', lo, off, hi - off, x);
      } else {
        assert BmapRecord(v', off / BSIZE, x) || x == b;
      }
    }
    assert WrittenBut(v', lo, hi, l' - l0, b);
  }

  lemma SizeNotStored(v0: View, v1: View, v2: View, added: set<nat>, off: nat, src: seq<byte>)
    requires ViewOk(v0) && ViewOk(v1) && ViewOk(v2) && off + |src| <= MAXFILE * BSIZE
    requires WriteProgress(v0, v1, added, off, off + |src|, src) && v2 == WithSize(v1, off + |src|) && Keeps(v1, v2)
    ensures Writes(v0, v2, off, off + |src|) && NearlyWritten(v2, off, off + |src|, added)
  {
    var hi := off + |src|;
    hide Ref, Ino, ByteAt, ViewOk, BmapRecord, AddrsTaken;
    KeepsWrites(v1, v2, hi, hi);
    WritesTrans(v0, v1, v2, off, hi, hi);
    forall x | x in added ensures WriteRecord(v2, off, hi, x) { RecordKeeps(v1, v2, off, hi, x); }
    assert WrittenBut(v2, off, hi, added, 0);
  }

  lemma KeepsGrow(v: View, v': View)
    requires ViewOk(v) && ViewOk(v') && Keeps(v, v')
    ensures RefsGrow(v, v')
  {
  }

  lemma NoBytes(v: View, i: nat, off: nat)
    requires ViewOk(v) && i < v.sb.ninodes && off <= MAXFILE * BSIZE
    ensures Bytes(v, i, off, off) == []
  {
  }

  lemma MappedMore(v: View, v': View, lo: nat, off: nat, m: nat)
    requires ViewOk(v) && ViewOk(v') && lo <= off && 0 < m <= BSIZE - off % BSIZE && off + m <= MAXFILE * BSIZE
    requires RefsGrow(v, v') && Mapped(v, lo, off) && Ref(v', SlotOf(v.cur, off / BSIZE)) != 0
    ensures Mapped(v', lo, off + m)
  {
    hide Ref;
    forall x | lo <= x < off + m ensures Ref(v', SlotOf(v.cur, x / BSIZE)) != 0 {
      if x < off { assert SlotOk(v, SlotOf(v.cur, x / BSIZE)); } else { SameBlock(off, x, m); }
    }
  }

  lemma SameBefore(v: View, v': View, lo: nat, off: nat, m: nat)
    requires ViewOk(v) && ViewOk(v') && lo <= off && off + m <= MAXFILE * BSIZE && Writes(v, v', off, off + m)
    ensures Bytes(v', v.cur, lo, off) == Bytes(v, v.cur, lo, off)
  {
    hide ByteAt, Ref, Ino;
    forall k | 0 <= k < off - lo ensures Bytes(v', v.cur, lo, off)[k] == Bytes(v, v.cur, lo, off)[k] {
      assert ByteAt(v', v.cur, lo + k) == ByteAt(v, v.cur, lo + k);
    }
  }

  lemma BytesJoin(v: View, i: nat, lo: nat, mid: nat, hi: nat)
    requires ViewOk(v) && i < v.sb.ninodes && lo <= mid <= hi <= MAXFILE * BSIZE
    ensures Bytes(v, i, lo, mid) + Bytes(v, i, mid, hi) == Bytes(v, i, lo, hi)
  {
    hide ByteAt;
  }

  lemma BytesMore(v: View, v': View, lo: nat, off: nat, m: nat, src: seq<byte>, tot: nat)
    requires ViewOk(v) && ViewOk(v') && lo <= off && off + m <= MAXFILE * BSIZE && tot + m <= |src|
    requires Writes(v, v', off, off + m) && Bytes(v, v.cur, lo, off) == src[..tot]
    requires Bytes(v', v.cur, off, off + m) == src[tot..tot + m]
    ensures Bytes(v', v.cur, lo, off + m) == src[..tot + m]
  {
    assert v.cur < v.sb.ninodes;
    hide Ref, Ino, ByteAt, ViewOk, Bytes;
    SameBefore(v, v', lo, off, m);
    BytesJoin(v', v.cur, lo, off, off + m);
    assert src[..tot] + src[tot..tot + m] == src[..tot + m];
  }

  lemma AllRecords(v: View, v': View, l0: set<nat>, l: set<nat>, l': set<nat>, lo: nat, off: nat, m: nat)
    requires ViewOk(v) && ViewOk(v') && lo <= off && 0 < m && off + m <= MAXFILE * BSIZE
    requires RefsGrow(v, v') && Mapped(v, lo, off)
    requires forall x :: x in l - l0 ==> WriteRecord(v, lo, off, x)
    requires forall x :: x in l' - l ==> BmapRecord(v', off / BSIZE, x)
    ensures forall x :: x in l' - l0 ==> WriteRecord(v', lo, off + m, x)
  {
    hide Mapped, RefsGrow, BmapRecord;
    forall x | x in l' - l0 ensures WriteRecord(v', lo, off + m, x) {
      if x in l { RecordsMore(v, v', lo, off, m, x); } else { assert BmapRecord(v', off / BSIZE, x); }
    }
  }

  /** One more part of the range has been written. */
  lemma WrittenMore(v0: View, v: View, v': View, l0: set<nat>, l: set<nat>, l': set<nat>, lo: nat, off: nat,
                    src: seq<byte>, tot: nat, m: nat)
    requires ViewOk(v0) && ViewOk(v) && ViewOk(v') && lo <= off <= MAXFILE * BSIZE && v0.cur == v.cur
    requires 0 < m <= BSIZE - off % BSIZE && off + m <= MAXFILE * BSIZE && tot + m <= |src|
    requires WriteProgress(v0, v, l - l0, lo, off, src[..tot])
    requires Writes(v, v', off, off + m) && TookAddr(v, v', off / BSIZE)
    requires Bytes(v', v.cur, off, off + m) == src[tot..tot + m] && Ref(v', SlotOf(v.cur, off / BSIZE)) != 0
    requires forall x :: x in l' - l ==> BmapRecord(v', off / BSIZE, x)
    ensures WriteProgress(v0, v', l' - l0, lo, off + m, src[..tot + m])
  {
    WritesTrans(v0, v, v', lo, off, off + m);
    BytesMore(v, v', lo, off, m, src, tot);
    MappedMore(v, v', lo, off, m);
    AddrsTakenMore(v0, v, v', lo, off, m);
    AllRecords(v, v', l0, l, l', lo, off, m);
    hide Writes, Ref, Ino, ByteAt, ViewOk, Bytes, BmapRecord, SlotOf, AddrsTaken, TookAddr, Mapped, WriteRecord;
  }

  // ---- bmap ----

  lemma DirectRecords(v: View, bn: nat, added: set<nat>)
    requires ViewOk(v) && bn < NDIRECT && v.ci.addrs[bn] != 0
    requires forall x :: x in added ==> x == v.ci.addrs[bn] || v.sb.InBitmap(x)
    ensures Ref(v, SlotOf(v.cur, bn)) == v.ci.addrs[bn]
    ensures forall x :: x in added ==> BmapRecord(v, bn, x)
  {
  }

  lemma IndirectRecords(v1: View, v2: View, bn: nat, a: nat, l: set<nat>, l1: set<nat>, l2: set<nat>)
    requires ViewOk(v1) && ViewOk(v2) && Keeps(v1, v2) && v1.ci.addrs[NDIRECT] == a == v2.ci.addrs[NDIRECT] != 0
    requires NDIRECT <= bn < MAXFILE && Ref(v2, Inner(v2.cur, bn - NDIRECT)) != 0
    requires forall x :: x in l1 - l ==> x == a || v1.sb.InBitmap(x)
    requires forall x :: x in l2 - l1 ==> x == Ref(v2, Inner(v2.cur, bn - NDIRECT)) || x == a || v2.sb.InBitmap(x)
    ensures forall x :: x in l2 - l ==> BmapRecord(v2, bn, x)
  {
    assert Ref(v2, Indirect(v2.cur)) == a;
    hide Ref, Ino, ByteAt;
    forall x | x in l2 - l ensures BmapRecord(v2, bn, x) {
      if x in l1 { assert x in l1 - l; } else { assert x in l2 - l1; }
    }
  }

  ghost predicate AllButOne(sb: Super, added: set<nat>, b: nat) { forall x :: x in added ==> sb.InBitmap(x) || x == b }

  /** All of added but one block are in the bitmap. */
  ghost predicate Partial(sb: Super, added: set<nat>) {
    exists b: nat :: AllButOne(sb, added, b)
  }

  lemma SomePartial(sb: Super, added: set<nat>, b: nat)
    requires AllButOne(sb, added, b)
    ensures Partial(sb, added)
  {
  }

  lemma Nearly(v: View, bn: nat, added: set<nat>, b: nat)
    requires ViewOk(v) && bn < MAXFILE && forall x :: x in added ==> v.sb.InBitmap(x) || x == b
    ensures NearlyRecords(v, bn, added)
  {
    hide Ref;
    assert NearlyBut(v, bn, added, b);
  }

  lemma IndirectThere(v: View, owner: map<nat, Slot>, a: nat)
    requires ViewOk(v) && Owned(v, owner, {}, {}) && a == v.ci.addrs[NDIRECT] != 0
    ensures Ref(v, Indirect(v.cur)) == a && a in v.d && v.sb.datastart <= a < v.sb.size
  {
    assert Ref(v, Indirect(v.cur)) == a;
  }

  lemma InnerNeedsIndirect(v: View, bn: nat)
    requires ViewOk(v) && NDIRECT <= bn < MAXFILE
    ensures Ref(v, SlotOf(v.cur, bn)) != 0 ==> v.ci.addrs[NDIRECT] != 0
  {
  }

  lemma NearlyIndirect(v1: View, v2: View, bn: nat, a: nat, l: set<nat>, l1: set<nat>, l2: set<nat>)
    requires ViewOk(v1) && ViewOk(v2) && v1.sb == v2.sb && v1.ci.addrs[NDIRECT] == a == v2.ci.addrs[NDIRECT] != 0 && bn < MAXFILE
    requires forall x :: x in l1 - l ==> x == a || v1.sb.InBitmap(x)
    requires Partial(v2.sb, l2 - l1)
    ensures NearlyRecords(v2, bn, l2 - l)
  {
    var b: nat :| AllButOne(v2.sb, l2 - l1, b);
    assert Ref(v2, Indirect(v2.cur)) == a;
    hide Ref, Ino;
    forall x | x in l2 - l ensures BmapRecord(v2, bn, x) || x == b {
      if x in l1 { assert x in l1 - l; } else { assert x in l2 - l1; }
    }
    assert NearlyBut(v2, bn, l2 - l, b);
  }

  // ---- one block of a file ----

  lemma InodeBlockSelf(v: View)
    requires ViewOk(v)
    ensures InodeBlockKept(v, v)
  {
    Regions(v.sb, 0, v.cur);
  }

  lemma NotInodeBlock(v: View, x: nat, data: Block)
    requires ViewOk(v) && (v.sb.InBitmap(x) || v.sb.datastart <= x < v.sb.size)
    ensures InodeBlockKept(v, v.(d := v.d[x := data]))
  {
    Regions(v.sb, 0, v.cur);
  }

  function Patched(data: Block, at: nat, part: seq<byte>): Block
    requires at + |part| <= BSIZE
  {
    data[..at] + part + data[at + |part|..]
  }

  lemma BlockShows(v: View, bn: nat, a: nat)
    requires ViewOk(v) && bn < MAXFILE && a == Ref(v, SlotOf(v.cur, bn)) != 0 && a in v.d
    ensures Shows(v, bn, v.d[a])
  {
    forall k | 0 <= k < BSIZE ensures ByteAt(v, v.cur, bn * BSIZE + k) == v.d[a][k] {
      assert (bn * BSIZE + k) / BSIZE == bn && (bn * BSIZE + k) % BSIZE == k;
    }
  }

  lemma PatchedBytes(v: View, v': View, bn: nat, at: nat, part: seq<byte>, data: Block)
    requires ViewOk(v) && ViewOk(v') && v.sb == v'.sb && v.cur == v'.cur
    requires bn < MAXFILE && at + |part| <= BSIZE
    requires SameBytesBut(v, v', bn * BSIZE, bn * BSIZE + BSIZE)
    requires Shows(v, bn, data) && Shows(v', bn, Patched(data, at, part))
    ensures SameBytesBut(v, v', bn * BSIZE + at, bn * BSIZE + at + |part|)
    ensures Bytes(v', v.cur, bn * BSIZE + at, bn * BSIZE + at + |part|) == part
  {
    var off := bn * BSIZE + at;
    var blk := Patched(data, at, part);
    assert forall k :: 0 <= k < BSIZE ==> blk[k] == if at <= k < at + |part| then part[k - at] else data[k];
    hide ByteAt, ViewOk, Patched;
    forall i, o | 0 <= i < v.sb.ninodes && 0 <= o < MAXFILE * BSIZE && !(i == v.cur && off <= o < off + |part|)
      ensures ByteAt(v', i, o) == ByteAt(v, i, o) {
      if i == v.cur && bn * BSIZE <= o < bn * BSIZE + BSIZE {
        var k := o - bn * BSIZE;
        assert ByteAt(v', v.cur, bn * BSIZE + k) == blk[k] && ByteAt(v, v.cur, bn * BSIZE + k) == data[k];
      }
    }
    forall k | 0 <= k < |part| ensures Bytes(v', v.cur, off, off + |part|)[k] == part[k] {
      assert ByteAt(v', v.cur, bn * BSIZE + (at + k)) == blk[at + k];
    }
  }

  /** One block of the file is patched. */
  lemma PieceStored(v: View, owner: map<nat, Slot>, bn: nat, at: nat, part: seq<byte>, a: nat)
    requires ViewOk(v) && Owned(v, owner, {}, {})
    requires bn < MAXFILE && at + |part| <= BSIZE && a == Ref(v, SlotOf(v.cur, bn)) != 0
    ensures a in v.d && v.sb.datastart <= a < v.sb.size
    ensures var v' := v.(d := v.d[a := Patched(v.d[a], at, part)]);
            && ViewOk(v') && Owned(v', owner, {}, {}) && SameRefs(v, v') && SameOthers(v, v')
            && SameBytesBut(v, v', bn * BSIZE + at, bn * BSIZE + at + |part|)
            && Bytes(v', v.cur, bn * BSIZE + at, bn * BSIZE + at + |part|) == part
  {
    assert SlotOk(v, SlotOf(v.cur, bn));
    var blk := Patched(v.d[a], at, part);
    StoreData(v, owner, bn, blk);
    BlockShows(v, bn, a);
    hide *;
    PatchedBytes(v, v.(d := v.d[a := blk]), bn, at, part, v.d[a]);
  }

  lemma RefsSameGrow(v: View, v': View)
    requires ViewOk(v) && ViewOk(v') && SameRefs(v, v')
    ensures RefsGrow(v, v')
  {
    hide Ref;
  }

  /** memmove into the block of offset off changes the file there and nowhere else. */
  lemma WritePiece(v0: View, v: View, owner: map<nat, Slot>, off: nat, part: seq<byte>)
    requires ViewOk(v0) && ViewOk(v) && Keeps(v0, v) && Owned(v, owner, {}, {})
    requires off + |part| <= MAXFILE * BSIZE && 0 < |part| <= BSIZE - off % BSIZE
    requires Ref(v, SlotOf(v.cur, off / BSIZE)) != 0
    ensures var a := Ref(v, SlotOf(v.cur, off / BSIZE));
            a in v.d && v.sb.datastart <= a < v.sb.size &&
            var v' := v.(d := v.d[a := Patched(v.d[a], off % BSIZE, part)]);
            && ViewOk(v') && Owned(v', owner, {}, {}) && Writes(v0, v', off, off + |part|) && SameRefs(v, v')
            && Bytes(v', v.cur, off, off + |part|) == part
            && RefsGrow(v, v')
  {
    var a := Ref(v, SlotOf(v.cur, off / BSIZE));
    PieceStored(v, owner, off / BSIZE, off % BSIZE, part, a);
    assert off / BSIZE * BSIZE + off % BSIZE == off;
    var blk := Patched(v.d[a], off % BSIZE, part);
    var v' := v.(d := v.d[a := blk]);
    hide Owned, Decode, ByteAt, Bytes, Ref, Ino, SlotOf, Patched, ViewOk;
    RefsSameGrow(v, v');
    KeepsWrites(v0, v, off, off);
    WritesTrans(v0, v, v', off, off, off + |part|);
  }

  lemma KeepsSelf(v: View)
    requires ViewOk(v)
    ensures Keeps(v, v)
  {
  }

  /** The part of one block that memmove takes is the next part of the file. */
  lemma ReadPiece(v0: View, v: View, owner: map<nat, Slot>, off: nat, m: nat)
    requires ViewOk(v0) && ViewOk(v) && Keeps(v0, v) && Owned(v, owner, {}, {})
    requires off + m <= MAXFILE * BSIZE && 0 < m <= BSIZE - off % BSIZE
    requires Ref(v, SlotOf(v.cur, off / BSIZE)) != 0
    ensures var a := Ref(v, SlotOf(v.cur, off / BSIZE));
            a in v.d && Bytes(v0, v.cur, off, off + m) == v.d[a][off % BSIZE..off % BSIZE + m]
  {
    var s := SlotOf(v.cur, off / BSIZE);
    assert SlotOk(v, s);
    var a := Ref(v, s);
    hide Ref, Ino, Owned;
    var piece := v.d[a][off % BSIZE..off % BSIZE + m];
    forall k | 0 <= k < m ensures Bytes(v0, v.cur, off, off + m)[k] == piece[k] {
      assert (off + k) / BSIZE == off / BSIZE && (off + k) % BSIZE == off % BSIZE + k;
      assert ByteAt(v, v.cur, off + k) == ByteAt(v0, v.cur, off + k);
    }
  }

  // ---- a new block ----

  /** By ownership alone: what did not go into slot s is where it was. */
  lemma OnlyOneEntered(v1: View, v2: View, owner: map<nat, Slot>, b: nat, s: Slot)
    requires ViewOk(v1) && ViewOk(v2) && v1.sb == v2.sb && Owned(v1, owner, {b}, {}) && Owned(v2, owner[b := s], {}, {})
    ensures forall t {:trigger Ref(v2, t)} :: SlotOk(v1, t) && t != s ==> Ref(v2, t) == Ref(v1, t)
  {
    hide Ref, Ino, IsUsed, ViewOk;
    forall t | SlotOk(v1, t) && t != s ensures Ref(v2, t) == Ref(v1, t) {
      if Ref(v1, t) != 0 {
        assert Ref(v2, owner[b := s][Ref(v1, t)]) == Ref(v1, t);
      }
    }
  }

  lemma GrowsByOne(v: View, v1: View, v2: View, s: Slot)
    requires ViewOk(v) && ViewOk(v1) && ViewOk(v2) && Keeps(v, v1) && SameOthers(v1, v2) && SameBytesBut(v1, v2, 0, 0)
    requires SlotOk(v, s) && Ref(v1, s) == 0
    requires forall t {:trigger Ref(v2, t)} :: SlotOk(v, t) && t != s ==> Ref(v2, t) == Ref(v1, t)
    ensures Keeps(v, v2)
  {
    hide Ref, Ino, ByteAt, ViewOk;
    assert RefsGrow(v1, v2);
    KeepsTrans(v, v1, v2);
  }

  /** A new block goes into addrs[k], where there was none. */
  lemma EnterAddr(v: View, v1: View, owner: map<nat, Slot>, k: nat, b: nat)
    requires ViewOk(v) && ViewOk(v1) && Keeps(v, v1) && SameRefs(v, v1) && v1.ci == v.ci
    requires k <= NDIRECT && v.ci.addrs[k] == 0 && Owned(v1, owner, {b}, {}) && b in v1.d && v1.d[b] == Zeros()
    ensures 0 < b < WORD_LIMIT
    ensures var v2 := WithAddr(v1, k, b);
            && ViewOk(v2) && Keeps(v, v2)
            && Owned(v2, owner[b := if k < NDIRECT then Direct(v.cur, k) else Indirect(v.cur)], {}, {})
  {
    assert 0 < v.sb.datastart <= b;
    var s := if k < NDIRECT then Direct(v.cur, k) else Indirect(v.cur);
    if k < NDIRECT { EnterDirect(v1, owner, k, b); } else { EnterIndirect(v1, owner, b); }
    var v2 := WithAddr(v1, k, b);
    OnlyOneEntered(v1, v2, owner, b, s);
    GrowsByOne(v, v1, v2, s);
  }

  /** A new block goes into entry j of the indirect block, where there was none. */
  lemma EnterEntry(v: View, v1: View, owner: map<nat, Slot>, j: nat, b: nat)
    requires ViewOk(v) && ViewOk(v1) && Keeps(v, v1) && SameRefs(v, v1) && v1.ci == v.ci
    requires j < NINDIRECT && v.ci.addrs[NDIRECT] != 0 && Ref(v, Inner(v.cur, j)) == 0
    requires Owned(v1, owner, {b}, {}) && b in v1.d && v1.d[b] == Zeros()
    ensures 0 < b < WORD_LIMIT && v.ci.addrs[NDIRECT] in v1.d
    ensures var a := v.ci.addrs[NDIRECT];
            var v2 := v1.(d := v1.d[a := SetWord(v1.d[a], j, b)]);
            && ViewOk(v2) && Keeps(v, v2) && Ref(v2, Inner(v.cur, j)) == b
            && Owned(v2, owner[b := Inner(v.cur, j)], {}, {})
  {
    assert 0 < v.sb.datastart <= b;
    var a := v.ci.addrs[NDIRECT];
    assert Ref(v1, Inner(v.cur, j)) == 0;
    EnterInner(v1, owner, j, b);
    var v2 := v1.(d := v1.d[a := SetWord(v1.d[a], j, b)]);
    hide SetWord, Word;
    OnlyOneEntered(v1, v2, owner, b, Inner(v.cur, j));
    GrowsByOne(v, v1, v2, Inner(v.cur, j));
  }

  lemma RefsTrans(v: View, v1: View, v2: View)
    requires ViewOk(v) && ViewOk(v1) && ViewOk(v2) && SameRefs(v, v1) && SameRefs(v1, v2)
    requires SameOthers(v, v1) && SameOthers(v1, v2) && SameBytesBut(v, v1, 0, 0) && SameBytesBut(v1, v2, 0, 0)
    ensures SameRefs(v, v2) && Keeps(v, v2)
  {
    hide Ref, Ino, ByteAt, ViewOk;
    forall s | SlotOk(v, s) ensures Ref(v2, s) == Ref(v, s) { assert Ref(v1, s) == Ref(v, s); }
    WritesTrans(v, v1, v2, 0, 0, 0);
  }

  // ---- on the bytes of the disk ----

  lemma ReadOnDisk(v: View, off: nat, n: nat)
    requires ViewOk(v) && off + n <= MAXFILE * BSIZE
    ensures forall x :: off <= x < off + n ==> Bytes(v, v.cur, off, off + n)[x - off] == ByteOnDisk(v.d, v.ci.addrs, x)
  {
    hide ByteAt, ByteOnDisk;
    forall x | off <= x < off + n ensures Bytes(v, v.cur, off, off + n)[x - off] == ByteOnDisk(v.d, v.ci.addrs, x) {
      ByteIsOnDisk(v, x);
    }
  }

  lemma EncodeSpells(b: Block, k: nat, x: Dinode)
    requires k < IPB && DinodeOk(x)
    ensures Spells(Encode(b, k, x), 64 * k, x)
    ensures forall i :: 0 <= i < 512 && !(64 * k <= i < 64 * k + 64) ==> Encode(b, k, x)[i] == b[i]
  {
    DecodeAfterEncode(b, k, x, k);
    DecodeSpells(Encode(b, k, x), k);
    hide Decode, Spells;
    PutWordsElsewhere(b, 16 * k, ToWords(x));
  }

  lemma {:induction false} PutWordsElsewhere(b: Block, at: nat, ws: seq<nat>)
    requires at + |ws| <= NWORDS
    ensures forall i :: 0 <= i < 512 && !(4 * at <= i < 4 * at + 4 * |ws|) ==> PutWords(b, at, ws)[i] == b[i]
    decreases |ws|
  {
    if ws != [] { PutWordsElsewhere(SetWord(b, at, ws[0]), at + 1, ws[1..]); }
  }

  lemma OwnedMarked(v: View, owner: map<nat, Slot>, b: nat)
    requires ViewOk(v) && Owned(v, owner, {b}, {})
    ensures MarkedOnDisk(v.sb.bmapstart, v.d, b)
  {
    BitmapRegion(v.sb, b);
    assert IsUsed(v.sb, v.d, b);
    UsedIsMarked(v.sb, v.d, b);
  }
}
