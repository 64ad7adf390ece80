/**
 The on-disk structures of fs.c as values: packed inodes, the free bitmap, block
 maps with an indirect block, and what it means that they fit together.
 */
module FsModel {
  import opened Basics
  import opened Blocks
  import opened Bits

  const NDIRECT: nat := 12
  const NINDIRECT: nat := 128
  const MAXFILE: nat := 140
  const IPB: nat := 8

  // ---- inodes packed in blocks ----

  /** struct dinode; the shorts are kept as the unsigned numbers their bits spell. */
  datatype Dinode = Dinode(typ: nat, major: nat, minor: nat, nlink: nat, size: nat, addrs: seq<nat>)

  predicate DinodeOk(x: Dinode) {
    && x.typ < 65536 && x.major < 65536 && x.minor < 65536 && x.nlink < 65536
    && x.size < WORD_LIMIT && |x.addrs| == NDIRECT + 1
    && forall k :: 0 <= k <= NDIRECT ==> x.addrs[k] < WORD_LIMIT
  }

  function ToWords(x: Dinode): (ws: seq<nat>) {
    [x.typ + 65536 * x.major, x.minor + 65536 * x.nlink, x.size] + x.addrs
  }

  /** Stores ws from word at on. */
  function PutWords(b: Block, at: nat, ws: seq<nat>): Block
    requires at + |ws| <= NWORDS
    decreases |ws|
  {
    if ws == [] then b else PutWords(SetWord(b, at, ws[0]), at + 1, ws[1..])
  }

  lemma {:induction false} WordAfterPut(b: Block, at: nat, ws: seq<nat>, j: nat)
    requires at + |ws| <= NWORDS && j < NWORDS && forall i :: 0 <= i < |ws| ==> ws[i] < WORD_LIMIT
    ensures Word(PutWords(b, at, ws), j) == if at <= j < at + |ws| then ws[j - at] else Word(b, j)
    decreases |ws|
  {
    if ws != [] {
      WordAfterPut(SetWord(b, at, ws[0]), at + 1, ws[1..], j);
      WordAfterSet(b, at, ws[0], j);
    }
  }

  /** *((struct dinode*)data + k) */
  function Decode(b: Block, k: nat): Dinode
    requires k < IPB
  {
    Dinode(Word(b, 16 * k) % 65536, Word(b, 16 * k) / 65536, Word(b, 16 * k + 1) % 65536, Word(b, 16 * k + 1) / 65536,
           Word(b, 16 * k + 2), seq<nat>(NDIRECT + 1, i requires 0 <= i <= NDIRECT => Word(b, 16 * k + 3 + i)))
  }

  /** What iupdate makes of the inode's block. */
  function Encode(b: Block, k: nat, x: Dinode): Block
    requires k < IPB && DinodeOk(x)
  {
    PutWords(b, 16 * k, ToWords(x))
  }

  lemma WordsOfDinode(b: Block, c: Block, k: nat)
    requires k < IPB && forall j :: 16 * k <= j < 16 * k + 16 ==> Word(b, j) == Word(c, j)
    ensures Decode(b, k) == Decode(c, k)
  {
    hide Word;
    assert Word(b, 16 * k) == Word(c, 16 * k) && Word(b, 16 * k + 1) == Word(c, 16 * k + 1)
        && Word(b, 16 * k + 2) == Word(c, 16 * k + 2);
    assert Decode(b, k).addrs == Decode(c, k).addrs;
  }

  /** The 64 bytes from offset o on are a struct dinode with the fields of x. */
  predicate Spells(b: Block, o: nat, x: Dinode) {
    && o + 64 <= 512
    && x.typ == Number2(b, o) && x.major == Number2(b, o + 2) && x.minor == Number2(b, o + 4) && x.nlink == Number2(b, o + 6)
    && x.size == Number4(b, o + 8)
    && |x.addrs| == 13 && forall k :: 0 <= k < 13 ==> x.addrs[k] == Number4(b, o + 12 + 4 * k)
  }

  lemma DecodeSpells(b: Block, k: nat)
    requires k < IPB
    ensures Spells(b, 64 * k, Decode(b, k))
  {
    hide Word;
    WordIsNumber4(b, 16 * k);
    WordIsNumber4(b, 16 * k + 1);
    WordIsNumber4(b, 16 * k + 2);
    var x := Decode(b, k);
    HalvesOfNumber(b, 64 * k);
    HalvesOfNumber(b, 64 * k + 4);
    forall i | 0 <= i < 13 ensures x.addrs[i] == Number4(b, 64 * k + 12 + 4 * i) { WordIsNumber4(b, 16 * k + 3 + i); }
  }

  lemma HalvesOfNumber(b: Block, o: nat)
    requires o + 4 <= 512
    ensures Number4(b, o) % 65536 == Number2(b, o) && Number4(b, o) / 65536 == Number2(b, o + 2)
  {
    var lo, hi := Number2(b, o), Number2(b, o + 2);
    assert Number4(b, o) == lo + 65536 * hi && lo < 65536;
  }

  lemma WordsAfterEncode(b: Block, k: nat, x: Dinode, j: nat)
    requires k < IPB && DinodeOk(x) && j < NWORDS
    ensures Word(Encode(b, k, x), j) == if 16 * k <= j < 16 * k + 16 then ToWords(x)[j - 16 * k] else Word(b, j)
  {
    WordAfterPut(b, 16 * k, ToWords(x), j);
  }

  lemma DecodeWords(c: Block, k: nat, x: Dinode)
    requires k < IPB && DinodeOk(x)
    requires forall j :: 0 <= j < 16 ==> Word(c, 16 * k + j) == ToWords(x)[j]
    ensures Decode(c, k) == x
  {
    var ws := ToWords(x);
    hide Word;
    assert Word(c, 16 * k + 0) == ws[0] && Word(c, 16 * k + 1) == ws[1] && Word(c, 16 * k + 2) == ws[2];
    forall i | 0 <= i <= NDIRECT ensures Decode(c, k).addrs[i] == x.addrs[i] {
      assert Word(c, 16 * k + (3 + i)) == ws[3 + i];
    }
    assert Decode(c, k).addrs == x.addrs;
  }

  /** iupdate stores the inode, and leaves the other inodes of the block alone. */
  lemma DecodeAfterEncode(b: Block, k: nat, x: Dinode, m: nat)
    requires k < IPB && m < IPB && DinodeOk(x)
    ensures Decode(Encode(b, k, x), m) == if m == k then x else Decode(b, m)
  {
    var c := Encode(b, k, x);
    hide *;
    if m == k {
      forall j | 0 <= j < 16 ensures Word(c, 16 * k + j) == ToWords(x)[j] { WordsAfterEncode(b, k, x, 16 * k + j); }
      DecodeWords(c, k, x);
    } else {
      forall j | 16 * m <= j < 16 * m + 16 ensures Word(b, j) == Word(c, j) { WordsAfterEncode(b, k, x, j); }
      WordsOfDinode(b, c, m);
    }
  }

  // ---- the disk ----

  type Store = map<nat, Block>

  /** The superblock, and the first block that can hold file data. */
  datatype Super = Super(size: nat, ninodes: nat, inodestart: nat, bmapstart: nat, datastart: nat) {
    function IBlock(i: nat): nat { i / IPB + inodestart }
    function BBlock(b: nat): nat { b / BPB + bmapstart }

    /** A block of the bitmap that holds the bit of some block. */
    predicate InBitmap(x: nat) { size > 0 && bmapstart <= x <= bmapstart + (size - 1) / BPB }

    /** The regions follow each other, as mkfs lays them out. */
    predicate Ok() {
      && 2 <= inodestart && inodestart + ninodes / IPB < bmapstart
      && bmapstart + size / BPB < datastart <= size < WORD_LIMIT
    }

    predicate On(d: Store) {
      Ok() && forall b :: 0 <= b < size ==> b in d
    }
  }

  predicate IsUsed(sb: Super, d: Store, b: nat)
    requires sb.BBlock(b) in d
  {
    BlockBit(d[sb.BBlock(b)], b % BPB)
  }

  /** The disk, and the locked inode whose copy in memory may be ahead of it. */
  datatype View = View(sb: Super, d: Store, cur: nat, ci: Dinode)

  predicate ViewOk(v: View) {
    v.sb.On(v.d) && v.cur < v.sb.ninodes && DinodeOk(v.ci)
  }

  function Ino(v: View, i: nat): Dinode
    requires ViewOk(v) && i < v.sb.ninodes
  {
    if i == v.cur then v.ci else Decode(v.d[v.sb.IBlock(i)], i % IPB)
  }

  /** The places that hold a block number. */
  datatype Slot = Direct(i: nat, k: nat) | Indirect(i: nat) | Inner(i: nat, j: nat)

  predicate SlotOk(v: View, s: Slot) {
    s.i < v.sb.ninodes && (s.Direct? ==> s.k < NDIRECT) && (s.Inner? ==> s.j < NINDIRECT)
  }

  /** The block number in a slot; 0 if there is none. */
  function Ref(v: View, s: Slot): nat
    requires ViewOk(v) && SlotOk(v, s)
  {
    match s
    case Direct(i, k) => Ino(v, i).addrs[k]
    case Indirect(i) => Ino(v, i).addrs[NDIRECT]
    case Inner(i, j) => var a := Ino(v, i).addrs[NDIRECT]; if a == 0 || a !in v.d then 0 else Word(v.d[a], j)
  }

  /**
   Block ownership.  Every block number in a slot is a data block that names the slot as
   its owner; and the bitmap marks the metadata, the owned blocks but those of freed,
   which are about to leave their slots, and those of extra, which are about to enter one.
   */
  ghost predicate Owned(v: View, owner: map<nat, Slot>, extra: set<nat>, freed: set<nat>)
    requires ViewOk(v)
  {
    && (forall s {:trigger Ref(v, s)} :: SlotOk(v, s) && Ref(v, s) != 0 ==> Ref(v, s) in owner && owner[Ref(v, s)] == s)
    && (forall b :: b in owner ==> v.sb.datastart <= b < v.sb.size && SlotOk(v, owner[b]))
    && (forall b {:trigger Ref(v, owner[b])} :: b in owner ==> Ref(v, owner[b]) == b)
    && (forall b :: b in extra ==> v.sb.datastart <= b < v.sb.size && b !in owner)
    && (forall b :: b in freed ==> b in owner)
    && (forall b {:trigger IsUsed(v.sb, v.d, b)} :: 0 <= b < v.sb.size ==>
          (IsUsed(v.sb, v.d, b) <==> b < v.sb.datastart || (b in owner && b !in freed) || b in extra))
  }

  /** The slot for block bn of inode i. */
  function SlotOf(i: nat, bn: nat): Slot
    requires bn < MAXFILE
  {
    if bn < NDIRECT then Direct(i, bn) else Inner(i, bn - NDIRECT)
  }

  /** Byte off of inode i: what the block map leads to, or 0 where there is a hole. */
  function ByteAt(v: View, i: nat, off: nat): byte
    requires ViewOk(v) && i < v.sb.ninodes && off < MAXFILE * BSIZE
  {
    var a := Ref(v, SlotOf(i, off / BSIZE));
    if a == 0 || a !in v.d then 0 else v.d[a][off % BSIZE]
  }

  /** The bytes [lo, hi) of inode i. */
  function Bytes(v: View, i: nat, lo: nat, hi: nat): (s: seq<byte>)
    requires ViewOk(v) && i < v.sb.ninodes && lo <= hi <= MAXFILE * BSIZE
    ensures |s| == hi - lo
  {
    seq<byte>(hi - lo, k requires 0 <= k < hi - lo => ByteAt(v, i, lo + k))
  }

  // ---- what a change of one block or of the inode in memory leaves alone ----

  ghost predicate SameRefs(v: View, v': View)
    requires ViewOk(v) && ViewOk(v')
  {
    v.sb == v'.sb && v.cur == v'.cur && forall s {:trigger Ref(v', s)} :: SlotOk(v, s) ==> Ref(v', s) == Ref(v, s)
  }

  ghost predicate SameOthers(v: View, v': View)
    requires ViewOk(v) && ViewOk(v')
  {
    && v.sb == v'.sb && v.cur == v'.cur
    && forall i {:trigger Ino(v', i)} :: 0 <= i < v.sb.ninodes && i != v.cur ==> Ino(v', i) == Ino(v, i)
  }

  /** Every byte of every inode is the same, but perhaps those of cur in [lo, hi). */
  ghost predicate SameBytesBut(v: View, v': View, lo: nat, hi: nat)
    requires ViewOk(v) && ViewOk(v')
  {
    && v.sb == v'.sb && v.cur == v'.cur
    && forall i, off {:trigger ByteAt(v', i, off)} | 0 <= i < v.sb.ninodes && 0 <= off < MAXFILE * BSIZE ::
         !(i == v.cur && lo <= off < hi) ==> ByteAt(v', i, off) == ByteAt(v, i, off)
  }

  ghost predicate SameBits(v: View, v': View)
    requires ViewOk(v) && ViewOk(v')
  {
    v.sb == v'.sb && forall b {:trigger IsUsed(v'.sb, v'.d, b)} :: 0 <= b < v.sb.size ==>
      (IsUsed(v'.sb, v'.d, b) <==> IsUsed(v.sb, v.d, b))
  }

  lemma BitmapRegion(sb: Super, b: nat)
    requires sb.Ok() && b < sb.size
    ensures sb.bmapstart <= sb.BBlock(b) < sb.datastart && sb.InBitmap(sb.BBlock(b))
  {
    assert b / BPB <= (sb.size - 1) / BPB <= sb.size / BPB;
  }

  /** Bitmap blocks and inode blocks come before the data. */
  lemma Regions(sb: Super, b: nat, i: nat)
    requires sb.Ok() && b < sb.size && i < sb.ninodes
    ensures sb.bmapstart <= sb.BBlock(b) < sb.datastart
    ensures sb.inodestart <= sb.IBlock(i) < sb.bmapstart
  {
    assert b / BPB <= sb.size / BPB && i / IPB <= sb.ninodes / IPB;
  }

  /** A block that holds no inodes and that nobody owns can change freely. */
  lemma StoreUnowned(v: View, owner: map<nat, Slot>, extra: set<nat>, freed: set<nat>, x: nat, blk: Block)
    requires ViewOk(v) && Owned(v, owner, extra, freed) && v.sb.bmapstart <= x < v.sb.size && x !in owner
    ensures var v' := v.(d := v.d[x := blk]); ViewOk(v') && SameRefs(v, v') && SameOthers(v, v') && SameBytesBut(v, v', 0, 0)
  {
    var v' := v.(d := v.d[x := blk]);
    hide Word, Decode;
    forall i | 0 <= i < v.sb.ninodes ensures Ino(v', i) == Ino(v, i) { Regions(v.sb, 0, i); }
    forall s | SlotOk(v, s) ensures Ref(v', s) == Ref(v, s) {
      assert Ref(v, Indirect(s.i)) != x;
    }
    forall i, off | 0 <= i < v.sb.ninodes && 0 <= off < MAXFILE * BSIZE ensures ByteAt(v', i, off) == ByteAt(v, i, off) {
      assert Ref(v, SlotOf(i, off / BSIZE)) != x;
    }
  }

  lemma OwnedSame(v: View, v': View, owner: map<nat, Slot>, extra: set<nat>, freed: set<nat>)
    requires ViewOk(v) && ViewOk(v') && Owned(v, owner, extra, freed) && SameRefs(v, v') && SameBits(v, v')
    ensures Owned(v', owner, extra, freed)
  {
    hide Ref, Ino, ViewOk, IsUsed;
    forall b | b in owner ensures Ref(v', owner[b]) == b { assert Ref(v, owner[b]) == b; }
  }

  /** Only the bitmap blocks decide about the bits. */
  lemma BitsOutside(v: View, x: nat, blk: Block)
    requires ViewOk(v) && v.sb.datastart <= x < v.sb.size
    ensures SameBits(v, v.(d := v.d[x := blk]))
  {
    forall b | 0 <= b < v.sb.size ensures v.sb.BBlock(b) != x { Regions(v.sb, b, 0); }
  }

  lemma BitsAfterPut(v: View, b: nat, used: bool, x: nat)
    requires ViewOk(v) && b < v.sb.size && x < v.sb.size
    ensures var bb := v.sb.BBlock(b);
            var d' := v.d[bb := PutBlockBit(v.d[bb], b % BPB, used)];
            v.sb.BBlock(x) in d' && (IsUsed(v.sb, d', x) <==> if x == b then used else IsUsed(v.sb, v.d, x))
  {
    Regions(v.sb, b, 0);
    Regions(v.sb, x, 0);
    if v.sb.BBlock(x) == v.sb.BBlock(b) {
      BlockBitAfterPut(v.d[v.sb.BBlock(b)], b % BPB, used, x % BPB);
      assert x % BPB == b % BPB ==> x == b;
    }
  }

  lemma OwnedBit(v: View, v': View, owner: map<nat, Slot>, extra: set<nat>, freed: set<nat>, b: nat, used: bool)
    requires ViewOk(v) && ViewOk(v') && Owned(v, owner, extra, freed) && SameRefs(v, v') && b < v.sb.size
    requires if used then !IsUsed(v.sb, v.d, b) && b !in freed else b in owner && b !in freed
    requires forall x {:trigger IsUsed(v'.sb, v'.d, x)} :: 0 <= x < v.sb.size ==>
               (IsUsed(v'.sb, v'.d, x) <==> if x == b then used else IsUsed(v.sb, v.d, x))
    ensures if used then b >= v.sb.datastart && b !in owner && b !in extra && Owned(v', owner, extra + {b}, freed)
            else Owned(v', owner, extra, freed + {b})
  {
    hide Ref, Ino, IsUsed, ViewOk;
    forall x | x in owner ensures Ref(v', owner[x]) == x { assert Ref(v, owner[x]) == x; }
  }

  /** One bit of the bitmap is set or cleared. */
  lemma StoreBit(v: View, owner: map<nat, Slot>, extra: set<nat>, freed: set<nat>, b: nat, used: bool)
    requires ViewOk(v) && Owned(v, owner, extra, freed) && b < v.sb.size
    requires if used then !IsUsed(v.sb, v.d, b) && b !in freed else b in owner && b !in freed
    ensures var bb := v.sb.BBlock(b);
            var v' := v.(d := v.d[bb := PutBlockBit(v.d[bb], b % BPB, used)]);
            && ViewOk(v') && SameRefs(v, v') && SameOthers(v, v') && SameBytesBut(v, v', 0, 0)
            && (if used then b >= v.sb.datastart && b !in owner && b !in extra && Owned(v', owner, extra + {b}, freed)
                else Owned(v', owner, extra, freed + {b}))
  {
    var bb := v.sb.BBlock(b);
    Regions(v.sb, b, 0);
    assert bb !in owner && bb in v.d;
    var blk := PutBlockBit(v.d[bb], b % BPB, used);
    hide PutBlockBit, Ref, Ino, ByteAt, IsUsed;
    var v' := v.(d := v.d[bb := blk]);
    StoreUnowned(v, owner, extra, freed, bb, blk);
    forall x | 0 <= x < v.sb.size ensures IsUsed(v'.sb, v'.d, x) <==> if x == b then used else IsUsed(v.sb, v.d, x) {
      BitsAfterPut(v, b, used, x);
    }
    OwnedBit(v, v', owner, extra, freed, b, used);
  }

  lemma StoreZeros(v: View, owner: map<nat, Slot>, extra: set<nat>, freed: set<nat>, b: nat)
    requires ViewOk(v) && Owned(v, owner, extra, freed) && b in extra
    ensures var v' := v.(d := v.d[b := Zeros()]);
            ViewOk(v') && SameOthers(v, v') && SameBytesBut(v, v', 0, 0) && SameRefs(v, v') && Owned(v', owner, extra, freed)
  {
    StoreUnowned(v, owner, extra, freed, b, Zeros());
    BitsOutside(v, b, Zeros());
    hide Ref, Ino, ByteAt, IsUsed;
    OwnedSame(v, v.(d := v.d[b := Zeros()]), owner, extra, freed);
  }

  /** Slot s now holds b, all other slots are as they were, and so is the bitmap. */
  lemma OwnedEntered(v: View, v': View, owner: map<nat, Slot>, s: Slot, b: nat)
    requires ViewOk(v) && ViewOk(v') && v.sb == v'.sb && Owned(v, owner, {b}, {}) && SameBits(v, v')
    requires SlotOk(v, s) && Ref(v, s) == 0 && Ref(v', s) == b
    requires forall t {:trigger Ref(v', t)} :: SlotOk(v, t) && t != s ==> Ref(v', t) == Ref(v, t)
    ensures Owned(v', owner[b := s], {}, {})
  {
    assert 0 < v.sb.datastart <= b;
    hide Ref, Ino, ByteAt, IsUsed, ViewOk;
    var o := owner[b := s];
    forall x | x in o ensures Ref(v', o[x]) == x {
      if x != b { assert Ref(v, owner[x]) == x; assert owner[x] != s; }
    }
  }

  function WithAddr(v: View, k: nat, b: nat): View
    requires ViewOk(v) && k <= NDIRECT
  {
    v.(ci := v.ci.(addrs := v.ci.addrs[k := b]))
  }

  /** ip->addrs[bn] = b, for a zeroed new block b. */
  lemma EnterDirect(v: View, owner: map<nat, Slot>, k: nat, b: nat)
    requires ViewOk(v) && Owned(v, owner, {b}, {}) && k < NDIRECT && v.ci.addrs[k] == 0 && b in v.d && v.d[b] == Zeros()
    ensures b < WORD_LIMIT
    ensures var v' := WithAddr(v, k, b);
            && ViewOk(v') && SameOthers(v, v') && SameBytesBut(v, v', 0, 0)
            && Ref(v', Direct(v.cur, k)) == b && Owned(v', owner[b := Direct(v.cur, k)], {}, {})
  {
    assert v.sb.datastart <= b < v.sb.size;
    var v' := WithAddr(v, k, b);
    hide Word, Decode, BlockBit;
    assert forall t :: SlotOk(v, t) && t != Direct(v.cur, k) ==> Ref(v', t) == Ref(v, t);
    OwnedEntered(v, v', owner, Direct(v.cur, k), b);
  }

  /** ip->addrs[NDIRECT] = b, for a zeroed new block b. */
  lemma EnterIndirect(v: View, owner: map<nat, Slot>, b: nat)
    requires ViewOk(v) && Owned(v, owner, {b}, {}) && v.ci.addrs[NDIRECT] == 0 && b in v.d && v.d[b] == Zeros()
    ensures b < WORD_LIMIT
    ensures var v' := WithAddr(v, NDIRECT, b);
            && ViewOk(v') && SameOthers(v, v') && SameBytesBut(v, v', 0, 0)
            && Owned(v', owner[b := Indirect(v.cur)], {}, {})
  {
    assert v.sb.datastart <= b < v.sb.size;
    var v' := WithAddr(v, NDIRECT, b);
    forall j: nat | j < NINDIRECT ensures Word(v.d[b], j) == 0 { ZeroWords(j); }
    hide Word, Decode, BlockBit;
    assert forall t :: SlotOk(v, t) && t != Indirect(v.cur) ==> Ref(v', t) == Ref(v, t);
    OwnedEntered(v, v', owner, Indirect(v.cur), b);
  }

  /** a[bn] = b in the indirect block, for a zeroed new block b. */
  lemma EnterInner(v: View, owner: map<nat, Slot>, j: nat, b: nat)
    requires ViewOk(v) && Owned(v, owner, {b}, {}) && j < NINDIRECT && v.ci.addrs[NDIRECT] != 0
    requires Ref(v, Inner(v.cur, j)) == 0 && b in v.d && v.d[b] == Zeros()
    ensures v.ci.addrs[NDIRECT] in v.d && b < WORD_LIMIT
    ensures var a := v.ci.addrs[NDIRECT];
            var v' := v.(d := v.d[a := SetWord(v.d[a], j, b)]);
            && ViewOk(v') && SameOthers(v, v') && SameBytesBut(v, v', 0, 0)
            && Ref(v', Inner(v.cur, j)) == b && Owned(v', owner[b := Inner(v.cur, j)], {}, {})
  {
    var a := v.ci.addrs[NDIRECT];
    assert Ref(v, Indirect(v.cur)) == a;
    assert v.sb.datastart <= b < v.sb.size && v.sb.datastart <= a < v.sb.size && owner[a] == Indirect(v.cur);
    var blk := SetWord(v.d[a], j, b);
    var v' := v.(d := v.d[a := blk]);
    forall m: nat | m < NINDIRECT ensures Word(blk, m) == if m == j then b else Word(v.d[a], m) {
      WordAfterSet(v.d[a], j, b, m);
    }
    StoreIndirect(v, owner, {b}, a, blk);
    hide Word, SetWord, Decode, BlockBit;
    forall t | SlotOk(v, t) && t != Inner(v.cur, j) ensures Ref(v', t) == Ref(v, t) {
      if t.i == v.cur && t.Inner? { assert t.j < NINDIRECT; }
    }
    BitsOutside(v, a, blk);
    InnerBytes(v, v', owner, j, b);
    OwnedEntered(v, v', owner, Inner(v.cur, j), b);
  }

  /** The indirect block of cur changes: nothing else does but what its own slots say. */
  lemma StoreIndirect(v: View, owner: map<nat, Slot>, extra: set<nat>, a: nat, blk: Block)
    requires ViewOk(v) && Owned(v, owner, extra, {}) && a != 0 && v.ci.addrs[NDIRECT] == a
    ensures a in owner && owner[a] == Indirect(v.cur) && v.sb.datastart <= a < v.sb.size
    ensures var v' := v.(d := v.d[a := blk]);
            && ViewOk(v') && SameOthers(v, v')
            && (forall s {:trigger Ref(v', s)} :: SlotOk(v, s) && !(s.Inner? && s.i == v.cur) ==> Ref(v', s) == Ref(v, s))
  {
    assert Ref(v, Indirect(v.cur)) == a;
    var v' := v.(d := v.d[a := blk]);
    hide Word, Decode;
    forall i | 0 <= i < v.sb.ninodes ensures Ino(v', i) == Ino(v, i) { Regions(v.sb, 0, i); }
    forall s | SlotOk(v, s) && !(s.Inner? && s.i == v.cur) ensures Ref(v', s) == Ref(v, s) {
      if s.Inner? { assert Ref(v, Indirect(s.i)) != a; }
    }
  }

  lemma InnerBytes(v: View, v': View, owner: map<nat, Slot>, j: nat, b: nat)
    requires ViewOk(v) && ViewOk(v') && Owned(v, owner, {b}, {}) && j < NINDIRECT && b in v.d && v.d[b] == Zeros()
    requires v.sb == v'.sb && v.cur == v'.cur
    requires v.ci.addrs[NDIRECT] != 0 && v.ci.addrs[NDIRECT] in v'.d
    requires v'.d == v.d[v.ci.addrs[NDIRECT] := v'.d[v.ci.addrs[NDIRECT]]]
    requires Ref(v, Inner(v.cur, j)) == 0 && Ref(v', Inner(v.cur, j)) == b
    requires forall t {:trigger Ref(v', t)} :: SlotOk(v, t) && t != Inner(v.cur, j) ==> Ref(v', t) == Ref(v, t)
    ensures SameBytesBut(v, v', 0, 0)
  {
    var a := v.ci.addrs[NDIRECT];
    assert Ref(v, Indirect(v.cur)) == a;
    hide Ref, Ino;
    forall i, off | 0 <= i < v.sb.ninodes && 0 <= off < MAXFILE * BSIZE ensures ByteAt(v', i, off) == ByteAt(v, i, off) {
      var t := SlotOf(i, off / BSIZE);
      assert Ref(v, t) != a;
      if t == Inner(v.cur, j) { assert Ref(v', t) == b && b != a; }
    }
  }

  /** blk is what the block bn of cur shows. */
  ghost predicate Shows(v: View, bn: nat, blk: Block)
    requires ViewOk(v) && bn < MAXFILE
  {
    forall k :: 0 <= k < BSIZE ==> ByteAt(v, v.cur, bn * BSIZE + k) == blk[k]
  }

  /** The references after a block that some data slot owns has changed. */
  lemma StoreOwnedData(v: View, owner: map<nat, Slot>, a: nat, blk: Block)
    requires ViewOk(v) && Owned(v, owner, {}, {}) && a in owner && !owner[a].Indirect?
    ensures var v' := v.(d := v.d[a := blk]); ViewOk(v') && SameOthers(v, v') && SameRefs(v, v') && Owned(v', owner, {}, {})
  {
    var v' := v.(d := v.d[a := blk]);
    hide Word, Decode, BlockBit;
    forall i | 0 <= i < v.sb.ninodes ensures Ino(v', i) == Ino(v, i) { Regions(v.sb, 0, i); }
    forall t | SlotOk(v, t) ensures Ref(v', t) == Ref(v, t) {
      assert Ref(v, Indirect(t.i)) != a;
    }
    BitsOutside(v, a, blk);
    OwnedSame(v, v', owner, {}, {});
  }

  /** bp->data of a data block of cur is overwritten. */
  lemma StoreData(v: View, owner: map<nat, Slot>, bn: nat, blk: Block)
    requires ViewOk(v) && Owned(v, owner, {}, {}) && bn < MAXFILE && Ref(v, SlotOf(v.cur, bn)) != 0
    ensures var a := Ref(v, SlotOf(v.cur, bn));
            var v' := v.(d := v.d[a := blk]);
            && v.sb.datastart <= a < v.sb.size
            && ViewOk(v') && SameOthers(v, v') && SameRefs(v, v') && Owned(v', owner, {}, {})
            && SameBytesBut(v, v', bn * BSIZE, bn * BSIZE + BSIZE)
            && Shows(v', bn, blk)
  {
    hide Ref, Ino, Owned, SlotOf;
    DataSlot(v, owner, bn);
    var s := SlotOf(v.cur, bn);
    var a := Ref(v, s);
    var v' := v.(d := v.d[a := blk]);
    StoreOwnedData(v, owner, a, blk);
    forall i, off | 0 <= i < v.sb.ninodes && 0 <= off < MAXFILE * BSIZE && !(i == v.cur && bn * BSIZE <= off < bn * BSIZE + BSIZE)
      ensures ByteAt(v', i, off) == ByteAt(v, i, off) {
      OtherBlock(v, owner, bn, i, off / BSIZE);
    }
    forall k | 0 <= k < BSIZE ensures ByteAt(v', v.cur, bn * BSIZE + k) == blk[k] {
      assert (bn * BSIZE + k) / BSIZE == bn && (bn * BSIZE + k) % BSIZE == k;
      assert Ref(v', s) == a;
    }
  }

  lemma DataSlot(v: View, owner: map<nat, Slot>, bn: nat)
    requires ViewOk(v) && Owned(v, owner, {}, {}) && bn < MAXFILE && Ref(v, SlotOf(v.cur, bn)) != 0
    ensures var s, a := SlotOf(v.cur, bn), Ref(v, SlotOf(v.cur, bn));
            SlotOk(v, s) && a in owner && owner[a] == s && !s.Indirect? && v.sb.datastart <= a < v.sb.size
    ensures forall i, k :: 0 <= i < v.sb.ninodes && 0 <= k < MAXFILE ==> SlotOk(v, SlotOf(i, k))
  {
  }

  lemma OtherBlock(v: View, owner: map<nat, Slot>, bn: nat, i: nat, bn': nat)
    requires ViewOk(v) && Owned(v, owner, {}, {}) && bn < MAXFILE && bn' < MAXFILE && i < v.sb.ninodes
    requires Ref(v, SlotOf(v.cur, bn)) != 0 && !(i == v.cur && bn' == bn)
    ensures Ref(v, SlotOf(i, bn')) != Ref(v, SlotOf(v.cur, bn))
  {
    hide Ref, Ino;
    SlotsDiffer(v.cur, bn, i, bn');
    assert SlotOk(v, SlotOf(i, bn')) && SlotOk(v, SlotOf(v.cur, bn));
  }

  lemma SlotsDiffer(i: nat, bn: nat, i': nat, bn': nat)
    requires bn < MAXFILE && bn' < MAXFILE
    ensures SlotOf(i, bn) == SlotOf(i', bn') ==> i == i' && bn == bn'
  {
  }

  /** The inode's block takes the copy in memory: no inode changes. */
  lemma InodesSame(v: View)
    requires ViewOk(v)
    ensures v.sb.IBlock(v.cur) in v.d && v.sb.IBlock(v.cur) < v.sb.bmapstart
    ensures var ib := v.sb.IBlock(v.cur);
            var v' := v.(d := v.d[ib := Encode(v.d[ib], v.cur % IPB, v.ci)]);
            ViewOk(v') && Decode(v'.d[ib], v.cur % IPB) == v.ci
            && (forall i {:trigger Ino(v', i)} :: 0 <= i < v.sb.ninodes ==> Ino(v', i) == Ino(v, i))
  {
    var ib := v.sb.IBlock(v.cur);
    var blk := Encode(v.d[ib], v.cur % IPB, v.ci);
    var v' := v.(d := v.d[ib := blk]);
    Regions(v.sb, 0, v.cur);
    forall m: nat | m < IPB ensures Decode(blk, m) == if m == v.cur % IPB then v.ci else Decode(v.d[ib], m) {
      DecodeAfterEncode(v.d[ib], v.cur % IPB, v.ci, m);
    }
    hide Decode, Encode;
    forall i | 0 <= i < v.sb.ninodes ensures Ino(v', i) == Ino(v, i) {
      assert i % IPB == v.cur % IPB && i / IPB == v.cur / IPB ==> i == v.cur;
    }
  }

  /** iupdate: the inode's block takes the copy in memory. */
  lemma StoreInode(v: View, owner: map<nat, Slot>, extra: set<nat>, freed: set<nat>)
    requires ViewOk(v) && Owned(v, owner, extra, freed)
    ensures v.sb.IBlock(v.cur) in v.d
    ensures var ib := v.sb.IBlock(v.cur);
            var v' := v.(d := v.d[ib := Encode(v.d[ib], v.cur % IPB, v.ci)]);
            && ViewOk(v') && SameOthers(v, v') && SameRefs(v, v') && SameBytesBut(v, v', 0, 0)
            && Owned(v', owner, extra, freed) && Decode(v'.d[ib], v.cur % IPB) == v.ci
  {
    var ib := v.sb.IBlock(v.cur);
    InodesSame(v);
    var blk := Encode(v.d[ib], v.cur % IPB, v.ci);
    var v' := v.(d := v.d[ib := blk]);
    hide Decode, Encode, IsUsed;
    RefsBelowData(v, owner, extra, freed, ib, blk);
    BytesBelowData(v, owner, extra, freed, ib, blk);
    forall b | 0 <= b < v.sb.size ensures v.sb.BBlock(b) != ib { BitmapRegion(v.sb, b); }
    assert SameBits(v, v') by { BitsBelow(v, ib, blk); }
    hide Ref, Ino, ByteAt;
    OwnedSame(v, v', owner, extra, freed);
  }

  lemma BitsBelow(v: View, x: nat, blk: Block)
    requires ViewOk(v) && ViewOk(v.(d := v.d[x := blk])) && forall b :: 0 <= b < v.sb.size ==> v.sb.BBlock(b) != x
    ensures SameBits(v, v.(d := v.d[x := blk]))
  {
    hide BlockBit;
  }

  lemma RefsBelowData(v: View, owner: map<nat, Slot>, extra: set<nat>, freed: set<nat>, x: nat, blk: Block)
    requires ViewOk(v) && ViewOk(v.(d := v.d[x := blk])) && Owned(v, owner, extra, freed) && x < v.sb.datastart
    requires forall i {:trigger Ino(v.(d := v.d[x := blk]), i)} :: 0 <= i < v.sb.ninodes ==>
               Ino(v.(d := v.d[x := blk]), i) == Ino(v, i)
    ensures SameRefs(v, v.(d := v.d[x := blk]))
  {
    var v' := v.(d := v.d[x := blk]);
    forall s | SlotOk(v, s) ensures Ref(v', s) == Ref(v, s) {
      assert Ref(v, Indirect(s.i)) == 0 || Ref(v, Indirect(s.i)) >= v.sb.datastart;
      assert Ino(v', s.i) == Ino(v, s.i);
      hide Ino, Word, Owned, ViewOk;
    }
  }

  lemma BytesBelowData(v: View, owner: map<nat, Slot>, extra: set<nat>, freed: set<nat>, x: nat, blk: Block)
    requires ViewOk(v) && ViewOk(v.(d := v.d[x := blk])) && Owned(v, owner, extra, freed) && x < v.sb.datastart
    requires SameRefs(v, v.(d := v.d[x := blk]))
    ensures SameBytesBut(v, v.(d := v.d[x := blk]), 0, 0)
  {
    var v' := v.(d := v.d[x := blk]);
    hide Ref, Ino;
    forall i, off | 0 <= i < v.sb.ninodes && 0 <= off < MAXFILE * BSIZE ensures ByteAt(v', i, off) == ByteAt(v, i, off) {
      assert SlotOk(v, SlotOf(i, off / BSIZE));
      assert Ref(v', SlotOf(i, off / BSIZE)) == Ref(v, SlotOf(i, off / BSIZE));
    }
  }

  /** A slot of the inode in memory that has a block keeps it. */
  ghost predicate RefsGrow(v: View, v': View)
    requires ViewOk(v) && ViewOk(v')
  {
    && v.sb == v'.sb && v.cur == v'.cur
    && forall s {:trigger Ref(v', s)} :: SlotOk(v, s) && Ref(v, s) != 0 ==> Ref(v', s) == Ref(v, s)
  }

  /** Blocks may have been added to the inode in memory, but what the files hold is the same. */
  ghost predicate Keeps(v: View, v': View)
    requires ViewOk(v) && ViewOk(v')
  {
    SameOthers(v, v') && SameBytesBut(v, v', 0, 0) && RefsGrow(v, v')
  }

  /** The same, while the bytes of cur in [lo, hi) are written. */
  ghost predicate Writes(v: View, v': View, lo: nat, hi: nat)
    requires ViewOk(v) && ViewOk(v')
  {
    SameOthers(v, v') && SameBytesBut(v, v', lo, hi) && RefsGrow(v, v')
  }

  lemma WritesTrans(v: View, v1: View, v2: View, lo: nat, mid: nat, hi: nat)
    requires ViewOk(v) && ViewOk(v1) && ViewOk(v2) && lo <= mid <= hi
    requires Writes(v, v1, lo, mid) && Writes(v1, v2, mid, hi)
    ensures Writes(v, v2, lo, hi)
  {
    hide Ref, Ino, ByteAt, ViewOk;
    forall i | 0 <= i < v.sb.ninodes && i != v.cur ensures Ino(v2, i) == Ino(v, i) { assert Ino(v1, i) == Ino(v, i); }
    forall i, off | 0 <= i < v.sb.ninodes && 0 <= off < MAXFILE * BSIZE && !(i == v.cur && lo <= off < hi)
      ensures ByteAt(v2, i, off) == ByteAt(v, i, off) { assert ByteAt(v1, i, off) == ByteAt(v, i, off); }
    forall s | SlotOk(v, s) && Ref(v, s) != 0 ensures Ref(v2, s) == Ref(v, s) { assert Ref(v1, s) == Ref(v, s); }
  }

  lemma KeepsTrans(v: View, v1: View, v2: View)
    requires ViewOk(v) && ViewOk(v1) && ViewOk(v2) && Keeps(v, v1) && Keeps(v1, v2)
    ensures Keeps(v, v2)
  {
    WritesTrans(v, v1, v2, 0, 0, 0);
  }

  function WithSize(v: View, n: nat): View {
    v.(ci := v.ci.(size := n))
  }

  /** ip->size = n changes nothing else. */
  lemma SetSize(v: View, owner: map<nat, Slot>, n: nat)
    requires ViewOk(v) && Owned(v, owner, {}, {}) && n < WORD_LIMIT
    ensures ViewOk(WithSize(v, n)) && Keeps(v, WithSize(v, n)) && Owned(WithSize(v, n), owner, {}, {})
    ensures SameRefs(v, WithSize(v, n))
  {
    var v' := WithSize(v, n);
    hide Word, Decode, BlockBit;
    assert SameRefs(v, v');
    OwnedSame(v, v', owner, {}, {});
  }

  /** The owners that are left when some slots are emptied. */
  function Without(owner: map<nat, Slot>, gone: set<nat>): map<nat, Slot> {
    map b | b in owner && b !in gone :: owner[b]
  }

  /** The blocks of gone, already freed in the bitmap, leave their slots. */
  lemma OwnedLeft(v: View, v': View, owner: map<nat, Slot>, gone: set<nat>)
    requires ViewOk(v) && ViewOk(v') && v.sb == v'.sb && Owned(v, owner, {}, gone) && SameBits(v, v')
    requires forall s {:trigger Ref(v', s)} :: SlotOk(v, s) ==>
               Ref(v', s) == if Ref(v, s) in gone then 0 else Ref(v, s)
    ensures Owned(v', Without(owner, gone), {}, {})
  {
    hide Ref, Ino, IsUsed, ViewOk;
    var o := Without(owner, gone);
    forall b | b in o ensures Ref(v', o[b]) == b { assert Ref(v, owner[b]) == b; }
    forall s | SlotOk(v, s) && Ref(v', s) != 0 ensures Ref(v', s) in o && o[Ref(v', s)] == s { assert Ref(v, s) != 0; }
  }

  /** ip->addrs[k] = 0 after bfree(ip->addrs[k]). */
  lemma LeaveDirect(v: View, owner: map<nat, Slot>, k: nat)
    requires ViewOk(v) && k < NDIRECT && v.ci.addrs[k] != 0 && Owned(v, owner, {}, {v.ci.addrs[k]})
    ensures var v' := WithAddr(v, k, 0);
            ViewOk(v') && SameOthers(v, v') && Owned(v', Without(owner, {v.ci.addrs[k]}), {}, {})
            && (forall i, off {:trigger ByteAt(v', i, off)} ::
                  0 <= i < v.sb.ninodes && i != v.cur && 0 <= off < MAXFILE * BSIZE ==> ByteAt(v', i, off) == ByteAt(v, i, off))
  {
    var v' := WithAddr(v, k, 0);
    var s := Direct(v.cur, k);
    assert Ref(v, s) == v.ci.addrs[k] && owner[v.ci.addrs[k]] == s;
    hide Word, Decode, BlockBit;
    OwnedLeft(v, v', owner, {v.ci.addrs[k]});
  }

  /** The blocks that the first j entries of the indirect block of cur hold. */
  ghost function InnerBlocks(v: View, j: nat): set<nat>
    requires ViewOk(v) && j <= NINDIRECT
  {
    set m | 0 <= m < j && Ref(v, Inner(v.cur, m)) != 0 :: Ref(v, Inner(v.cur, m))
  }

  /** ip->addrs[NDIRECT] = 0 after the indirect block and all it holds have been freed. */
  lemma LeaveIndirect(v: View, owner: map<nat, Slot>)
    requires ViewOk(v) && v.ci.addrs[NDIRECT] != 0
    requires Owned(v, owner, {}, InnerBlocks(v, NINDIRECT) + {v.ci.addrs[NDIRECT]})
    ensures var v' := WithAddr(v, NDIRECT, 0);
            ViewOk(v') && SameOthers(v, v')
            && Owned(v', Without(owner, InnerBlocks(v, NINDIRECT) + {v.ci.addrs[NDIRECT]}), {}, {})
            && (forall i, off {:trigger ByteAt(v', i, off)} ::
                  0 <= i < v.sb.ninodes && i != v.cur && 0 <= off < MAXFILE * BSIZE ==> ByteAt(v', i, off) == ByteAt(v, i, off))
  {
    var v' := WithAddr(v, NDIRECT, 0);
    var a, gone := v.ci.addrs[NDIRECT], InnerBlocks(v, NINDIRECT) + {v.ci.addrs[NDIRECT]};
    assert Ref(v, Indirect(v.cur)) == a && owner[a] == Indirect(v.cur);
    hide Word, Decode, BlockBit;
    OwnedLeft(v, v', owner, gone);
  }

  // ---- what ownership means ----

  /** A data block is marked in the bitmap exactly when a slot refers to it, and then one slot does. */
  lemma BitmapExact(v: View, owner: map<nat, Slot>, b: nat)
    requires ViewOk(v) && Owned(v, owner, {}, {}) && v.sb.datastart <= b < v.sb.size
    ensures IsUsed(v.sb, v.d, b) <==> exists s :: SlotOk(v, s) && Ref(v, s) == b
    ensures forall s, t :: SlotOk(v, s) && SlotOk(v, t) && Ref(v, s) == b == Ref(v, t) ==> s == t
  {
    hide Ref, Ino;
    if IsUsed(v.sb, v.d, b) {
      assert SlotOk(v, owner[b]) && Ref(v, owner[b]) == b;
    }
  }

  lemma {:induction false} LittleEndianFits(s: seq<byte>, at: nat, n: nat)
    requires at + n <= |s|
    ensures LittleEndian(s, at, n) < Power256(n)
    decreases n
  {
    if n > 0 { LittleEndianFits(s, at + 1, n - 1); }
  }

  lemma WordFits(b: Block, i: nat)
    requires i < NWORDS
    ensures Word(b, i) < WORD_LIMIT
  {
    LittleEndianFits(b, 4 * i, 4);
    Power256Of4();
  }

  lemma DecodeOk(b: Block, k: nat)
    requires k < IPB
    ensures DinodeOk(Decode(b, k))
  {
    forall j: nat | j < NWORDS ensures Word(b, j) < WORD_LIMIT { WordFits(b, j); }
    hide Word;
  }

  // ---- the same on the bytes of the disk ----

  /** Bit b % 8 of byte b % 4096 / 8 of bitmap block b / 4096. */
  predicate MarkedOnDisk(bmapstart: nat, d: Store, b: nat) {
    bmapstart + b / 4096 in d && d[bmapstart + b / 4096][b % 4096 / 8] / Power2(b % 8) % 2 == 1
  }

  lemma UsedIsMarked(sb: Super, d: Store, b: nat)
    requires sb.BBlock(b) in d
    ensures IsUsed(sb, d, b) <==> MarkedOnDisk(sb.bmapstart, d, b)
  {
    BitIs(d[sb.BBlock(b)][b % BPB / 8], b % BPB % 8);
    assert b % 4096 % 8 == b % 8;
  }

  /** Byte x of a file with these addresses: in the block of one of the first 12, or of the number at place x / 512 - 12 of
      the block that address 12 names; or 0 where an address is 0. */
  function ByteOnDisk(d: Store, addrs: seq<nat>, x: nat): byte
    requires |addrs| == 13 && x / 512 < 140
  {
    var a := if x / 512 < 12 then addrs[x / 512]
             else if addrs[12] == 0 || addrs[12] !in d then 0
             else Number4(d[addrs[12]], 4 * (x / 512 - 12));
    if a == 0 || a !in d then 0 else d[a][x % 512]
  }

  lemma ByteIsOnDisk(v: View, x: nat)
    requires ViewOk(v) && x < MAXFILE * BSIZE
    ensures ByteAt(v, v.cur, x) == ByteOnDisk(v.d, v.ci.addrs, x)
  {
    var a := v.ci.addrs[NDIRECT];
    if x / 512 >= 12 && a != 0 && a in v.d { WordIsNumber4(v.d[a], x / 512 - 12); }
    hide Word;
  }

  /** The view in which inode i has just been read from disk. */
  function Locked(sb: Super, d: Store, i: nat): View
    requires sb.On(d) && i < sb.ninodes
  {
    Regions(sb, 0, i);
    View(sb, d, i, Decode(d[sb.IBlock(i)], i % IPB))
  }

  /** When the locked inode is on disk as it is in memory, another can be locked: nothing owned or stored is different. */
  lemma Relock(v: View, owner: map<nat, Slot>, i: nat)
    requires ViewOk(v) && Owned(v, owner, {}, {}) && i < v.sb.ninodes
    requires v.ci == Locked(v.sb, v.d, v.cur).ci
    ensures var v' := Locked(v.sb, v.d, i);
            && ViewOk(v') && Owned(v', owner, {}, {})
            && forall j, off {:trigger ByteAt(v', j, off)} :: 0 <= j < v.sb.ninodes && 0 <= off < MAXFILE * BSIZE ==>
                 ByteAt(v', j, off) == ByteAt(v, j, off)
  {
    var v' := Locked(v.sb, v.d, i);
    Regions(v.sb, 0, i);
    DecodeOk(v.d[v.sb.IBlock(i)], i % IPB);
    hide Word, Decode, BlockBit;
    forall j | 0 <= j < v.sb.ninodes ensures Ino(v', j) == Ino(v, j) {}
    forall s | SlotOk(v, s) ensures Ref(v', s) == Ref(v, s) {}
    forall b | b in owner ensures Ref(v', owner[b]) == b { assert Ref(v, owner[b]) == b; }
  }
}
