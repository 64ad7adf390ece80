/**
 A write that is lost: the smallest disk, with one file of one block that is a hole.
 */
module LostWrite {
  import opened Basics
  import opened Blocks
  import opened Bits
  import opened FsModel
  import opened FileModel
  import opened Durability

  const SB: Super := Super(6, 1, 2, 3, 4)

  /** A file of 512 bytes with no block. */
  const HOLE: Dinode := Dinode(2, 0, 0, 1, 512, NoAddrs())

  function NoAddrs(): (a: seq<nat>)
    ensures |a| == NDIRECT + 1 && forall k :: 0 <= k <= NDIRECT ==> a[k] == 0
  {
    seq(NDIRECT + 1, _ => 0)
  }

  /** The bits of the first n blocks. */
  function Marked(n: nat): Block
    requires n < BPB
  {
    if n == 0 then Zeros() else PutBlockBit(Marked(n - 1), n - 1, true)
  }

  function InodeBlock(): Block { Encode(Zeros(), 0, HOLE) }

  function ZeroDisk(): Store { map[0 := Zeros(), 1 := Zeros(), 2 := Zeros(), 3 := Zeros(), 4 := Zeros(), 5 := Zeros()] }

  function DiskWithHole(): Store { ZeroDisk()[2 := InodeBlock()][3 := Marked(4)] }

  function Before(): View { View(SB, DiskWithHole(), 0, HOLE) }

  lemma {:induction false} NoBit(k: nat)
    ensures !Bit(0, k)
  {
    if k > 0 { NoBit(k - 1); }
  }

  lemma {:induction false} MarkedBits(n: nat, i: nat)
    requires n < BPB && i < BPB
    ensures BlockBit(Marked(n), i) <==> i < n
  {
    if n == 0 {
      NoBit(i % 8);
    } else {
      MarkedBits(n - 1, i);
      BlockBitAfterPut(Marked(n - 1), n - 1, true, i);
    }
  }

  lemma HoleIsValid()
    ensures ViewOk(Before()) && Owned(Before(), map[], {}, {}) && Synced(Before())
  {
    hide Encode, Decode, Marked, BlockBit, Word;
    var v := Before();
    DecodeAfterEncode(Zeros(), 0, HOLE, 0);
    forall b | 0 <= b < SB.size ensures IsUsed(SB, v.d, b) <==> b < SB.datastart { MarkedBits(4, b); }
  }

  /** writei of one byte into the hole allocates block 4, and leaves the inode on disk as it was. */
  lemma WriteIntoHole() returns (v': View)
    ensures var v := Before();
            && ViewOk(v) && ViewOk(v') && v'.sb == v.sb && v'.cur == v.cur && v'.ci == HOLE.(addrs := HOLE.addrs[0 := 4])
            && Owned(v', map[4 := Direct(0, 0)], {}, {}) && Written(v, v', {3, 4}, 0, [1])
  {
    var v := Before();
    HoleIsValid();
    hide Encode, Decode, Marked, BlockBit, PutBlockBit, Word, DiskWithHole;
    assert !IsUsed(SB, v.d, 4) by { assert SB.datastart <= 4; }
    StoreBit(v, map[], {}, {}, 4, true);
    var v1 := v.(d := v.d[3 := PutBlockBit(v.d[3], 4, true)]);
    NotInodeBlock(v, 3, PutBlockBit(v.d[3], 4, true));
    assert {} + {4} == {4};
    StoreZeros(v1, map[], {4}, {}, 4);
    var v2 := v1.(d := v1.d[4 := Zeros()]);
    NotInodeBlock(v1, 4, Zeros());
    RefsTrans(v, v1, v2);
    EnterAddr(v, v2, map[], 0, 4);
    var v3 := WithAddr(v2, 0, 4);
    assert map[][4 := Direct(0, 0)] == map[4 := Direct(0, 0)];
    v' := WriteOneByte(v, v3);
  }

  lemma WriteOneByte(v: View, v3: View) returns (v': View)
    requires ViewOk(v) && ViewOk(v3) && v == Before() && v3.sb == v.sb && v3.cur == v.cur && v3.ci == HOLE.(addrs := HOLE.addrs[0 := 4])
    requires Owned(v3, map[4 := Direct(0, 0)], {}, {}) && Keeps(v, v3) && InodeBlockKept(v, v3)
    ensures ViewOk(v') && v'.sb == v.sb && v'.cur == v.cur && v'.ci == v3.ci
    ensures Owned(v', map[4 := Direct(0, 0)], {}, {}) && Written(v, v', {3, 4}, 0, [1])
  {
    hide Encode, Decode, Marked, BlockBit, PutBlockBit, Word, DiskWithHole, Patched;
    assert Ref(v3, Direct(0, 0)) == 4;
    WritePiece(v, v3, map[4 := Direct(0, 0)], 0, [1]);
    var blk := Patched(v3.d[4], 0, [1]);
    NotInodeBlock(v3, 4, blk);
    v' := v3.(d := v3.d[4 := blk]);
    assert Ref(v', Direct(0, 0)) == 4;
    hide Ref, Ino, Owned, ByteAt;
    WriteStart(v, 0);
    assert v.sb.InBitmap(3) && BmapRecord(v', 0, 3) && BmapRecord(v', 0, 4);
    assert [1][..0] == [] && [1][..1] == [1] && [1][0..1] == [1];
    var none: set<nat>, both: set<nat> := {}, {3, 4};
    assert none - none == none && both - none == both;
    WrittenMore(v, v, v', {}, {}, {3, 4}, 0, 0, [1], 0, 1);
    StayedWithin(v, v', {}, {3, 4}, 0, [1]);
  }

  /** The byte written is in the file, but the file read again from disk does not have it. */
  lemma ByteIsLost() returns (v': View)
    ensures var v := Before();
            && ViewOk(v) && ViewOk(v') && Owned(v, map[], {}, {}) && Synced(v) && v'.sb == v.sb && v'.cur == v.cur
            && v'.ci == HOLE.(addrs := HOLE.addrs[0 := 4]) && Written(v, v', {3, 4}, 0, [1]) && !Synced(v') && !WritesThrough(v, 0, 1) && !ZerosInHoles(v, 0, [1])
            && File(v')[0] == 1 && File(v) == File(v.(d := v'.d)) && File(v)[0] == 0
  {
    HoleIsValid();
    v' := WriteIntoHole();
    hide Encode, Decode, Marked, DiskWithHole;
    var v, now := Before(), Before().(d := v'.d);
    assert v.ci.addrs[AddrOf(0 / BSIZE)] == 0;
    assert File(v')[0] == Splice(File(v), 0, [1])[0];
    forall x: nat | x < 512 ensures File(now)[x] == File(v)[x] == 0 {
      assert x / BSIZE == 0;
    }
    assert File(now) == File(v);
  }
}
