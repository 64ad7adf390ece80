/**
 A truncation that panics: a file of one block, on a log with room for one block behind its header.
 */
module StuckTruncate {
  import opened Blocks
  import opened Bits
  import opened FsModel
  import opened FileModel
  import opened FileSystem
  import opened LostWrite

  /** A file of 512 bytes in block 4. */
  const FULL: Dinode := HOLE.(addrs := HOLE.addrs[0 := 4])

  function FullInode(): Block { Encode(Zeros(), 0, FULL) }

  function DiskWithFile(): Store { ZeroDisk()[2 := FullInode()][3 := Marked(5)] }

  function Whole(): View { View(SB, DiskWithFile(), 0, FULL) }

  lemma WholeIsValid()
    ensures ViewOk(Whole()) && Owned(Whole(), map[4 := Direct(0, 0)], {}, {}) && Locked(SB, DiskWithFile(), 0) == Whole()
  {
    hide Encode, Decode, Marked, BlockBit, Word;
    var v := Whole();
    DecodeAfterEncode(Zeros(), 0, FULL, 0);
    forall b | 0 <= b < SB.size ensures IsUsed(SB, v.d, b) <==> b < SB.datastart || b == 4 { MarkedBits(5, b); }
    assert Ref(v, Direct(0, 0)) == 4;
  }

  /** itrunc lists the bitmap block for the file's block, and finds no room for the block of the inode. */
  method TruncatePanics() returns (ok: bool)
    ensures !ok
  {
    WholeIsValid();
    hide Encode, Decode, Marked, BlockBit, Word, DiskWithFile, Owned;
    ghost var owner := map[4 := Direct(0, 0)];
    var fs := new Fs(SB, 2, DiskWithFile(), owner);
    var ip := new Inode(0);
    var typed := fs.Ilock(ip);
    assert fs.V(ip) == Whole();
    fs.open := true;
    assert OwnedBy(owner, 0) == {4} && BitmapOf(SB, {4}) == {3};
    assert {} + {3} == {3};
    ok := fs.Itrunc(ip);
  }
}
