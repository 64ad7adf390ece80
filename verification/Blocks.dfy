/**
 Disk blocks as byte strings, and the 32-bit little-endian words the kernel
 reads from them through a cast pointer (log header, indirect block, inode).
 */
module Blocks {
  import opened Basics

  const BSIZE: nat := 512
  const NWORDS: nat := 128
  const WORD_LIMIT: nat := 0x1_0000_0000

  type Block = s: seq<byte> | |s| == 512 witness seq(512, _ => 0)

  /** What memset(data, 0, BSIZE) leaves. */
  function Zeros(): (b: Block)
    ensures forall i :: 0 <= i < BSIZE ==> b[i] == 0
  {
    seq(512, _ => 0)
  }

  /** n bytes of s from offset at, least significant first. */
  function LittleEndian(s: seq<byte>, at: nat, n: nat): nat
    requires at + n <= |s|
    decreases n
  {
    if n == 0 then 0 else s[at] + 256 * LittleEndian(s, at + 1, n - 1)
  }

  function PutLittleEndian(s: seq<byte>, at: nat, n: nat, w: nat): (r: seq<byte>)
    requires at + n <= |s|
    ensures |r| == |s|
    ensures forall i :: 0 <= i < |s| && !(at <= i < at + n) ==> r[i] == s[i]
    decreases n
  {
    if n == 0 then s else PutLittleEndian(s[at := w % 256], at + 1, n - 1, w / 256)
  }

  function Power256(n: nat): nat {
    if n == 0 then 1 else 256 * Power256(n - 1)
  }

  lemma {:induction false} PutThenGet(s: seq<byte>, at: nat, n: nat, w: nat)
    requires at + n <= |s| && w < Power256(n)
    ensures LittleEndian(PutLittleEndian(s, at, n, w), at, n) == w
    decreases n
  {
    if n > 0 {
      PutThenGet(s[at := w % 256], at + 1, n - 1, w / 256);
      assert PutLittleEndian(s, at, n, w)[at] == w % 256;
    }
  }

  lemma {:induction false} SameBytesSameNumber(s: seq<byte>, t: seq<byte>, at: nat, n: nat)
    requires at + n <= |s| && at + n <= |t|
    requires forall i :: at <= i < at + n ==> s[i] == t[i]
    ensures LittleEndian(s, at, n) == LittleEndian(t, at, n)
    decreases n
  {
    if n > 0 { SameBytesSameNumber(s, t, at + 1, n - 1); }
  }

  /** ((uint*)data)[i] */
  function Word(b: Block, i: nat): nat
    requires i < NWORDS
  {
    LittleEndian(b, 4 * i, 4)
  }

  /** ((uint*)data)[i] = w */
  function SetWord(b: Block, i: nat, w: nat): Block
    requires i < NWORDS
  {
    PutLittleEndian(b, 4 * i, 4, w)
  }

  lemma Power256Of4()
    ensures Power256(4) == WORD_LIMIT
  {
    assert Power256(4) == 256 * Power256(3) == 256 * (256 * Power256(2)) by {
      assert Power256(2) == 256 * Power256(1) == 65536;
    }
  }

  lemma WordAfterSet(b: Block, i: nat, w: nat, j: nat)
    requires i < NWORDS && j < NWORDS && w < WORD_LIMIT
    ensures Word(SetWord(b, i, w), j) == if i == j then w else Word(b, j)
  {
    Power256Of4();
    if i == j {
      PutThenGet(b, 4 * i, 4, w);
    } else {
      SameBytesSameNumber(b, SetWord(b, i, w), 4 * j, 4);
    }
  }

  lemma ZeroWords(i: nat)
    requires i < NWORDS
    ensures Word(Zeros(), i) == 0
  {
    assert LittleEndian(Zeros(), 4 * i + 2, 2) == 0 by {
      assert LittleEndian(Zeros(), 4 * i + 3, 1) == 0;
    }
  }

  /** The four bytes from offset o on as a number, least significant first. */
  function Number4(b: Block, o: nat): nat
    requires o + 4 <= 512
  {
    b[o] as nat + 256 * b[o + 1] as nat + 65536 * b[o + 2] as nat + 16777216 * b[o + 3] as nat
  }

  function Number2(b: Block, o: nat): nat
    requires o + 2 <= 512
  {
    b[o] as nat + 256 * b[o + 1] as nat
  }

  lemma WordIsNumber4(b: Block, i: nat)
    requires i < NWORDS
    ensures Word(b, i) == Number4(b, 4 * i)
  {
    var b1, b2, b3: nat := b[4 * i + 1], b[4 * i + 2], b[4 * i + 3];
    assert LittleEndian(b, 4 * i + 4, 0) == 0;
    assert LittleEndian(b, 4 * i + 3, 1) == b3;
    assert LittleEndian(b, 4 * i + 2, 2) == b2 + 256 * b3;
    assert LittleEndian(b, 4 * i + 1, 3) == b1 + 256 * b2 + 65536 * b3;
  }
}
