/** The free bitmap: single bits of bytes, and of blocks read as arrays of bits. */
module Bits {
  import opened Basics
  import opened Blocks

  /** (x & (1 << k)) != 0 */
  predicate Bit(x: nat, k: nat) {
    if k == 0 then x % 2 == 1 else Bit(x / 2, k - 1)
  }

  /** x | (1 << k) or x & ~(1 << k) */
  function PutBit(x: nat, k: nat, v: bool): nat {
    if k == 0 then 2 * (x / 2) + (if v then 1 else 0) else x % 2 + 2 * PutBit(x / 2, k - 1, v)
  }

  function Power2(n: nat): (p: nat)
    ensures p > 0
  {
    if n == 0 then 1 else 2 * Power2(n - 1)
  }

  lemma {:induction false} PutBitFits(x: nat, k: nat, v: bool, n: nat)
    requires k < n && x < Power2(n)
    ensures PutBit(x, k, v) < Power2(n)
  {
    if k > 0 { PutBitFits(x / 2, k - 1, v, n - 1); }
  }

  lemma {:induction false} BitAfterPut(x: nat, k: nat, v: bool, j: nat)
    ensures Bit(PutBit(x, k, v), j) == if j == k then v else Bit(x, j)
  {
    if k > 0 && j > 0 {
      BitAfterPut(x / 2, k - 1, v, j - 1);
    }
  }

  lemma Power2Of8()
    ensures Power2(8) == 256
  {
    assert Power2(4) == 2 * Power2(3) == 4 * Power2(2) == 16 by { assert Power2(2) == 4; }
    assert Power2(8) == 2 * Power2(7) == 4 * Power2(6) == 8 * Power2(5) == 16 * Power2(4) by {
      assert Power2(6) == 2 * Power2(5);
    }
  }

  const BPB: nat := 4096

  predicate BlockBit(b: Block, i: nat)
    requires i < BPB
  {
    Bit(b[i / 8], i % 8)
  }

  function PutBlockBit(b: Block, i: nat, v: bool): Block
    requires i < BPB
  {
    Power2Of8();
    PutBitFits(b[i / 8], i % 8, v, 8);
    b[i / 8 := PutBit(b[i / 8], i % 8, v)]
  }

  lemma BlockBitAfterPut(b: Block, i: nat, v: bool, j: nat)
    requires i < BPB && j < BPB
    ensures BlockBit(PutBlockBit(b, i, v), j) == if i == j then v else BlockBit(b, j)
  {
    BitAfterPut(b[i / 8], i % 8, v, j % 8);
  }

  /** Bit k of a number. */
  lemma {:induction false} BitIs(x: nat, k: nat)
    ensures Power2(k) > 0 && (Bit(x, k) <==> x / Power2(k) % 2 == 1)
  {
    if k > 0 {
      BitIs(x / 2, k - 1);
      HalfAndShift(x, Power2(k - 1));
    }
  }

  function Multiple(q: nat, p: nat): nat { q * p }

  lemma MultipleOfTwice(q: nat, p: nat)
    ensures q * (2 * p) == 2 * Multiple(q, p)
  {
  }

  lemma QuotientBounds(y: nat, p: nat, q: nat)
    requires p > 0
    ensures y / p == q <==> Multiple(q, p) <= y < Multiple(q + 1, p)
  {
    DivIs(y, p, q);
  }

  lemma HalfAndShift(x: nat, p: nat)
    requires p > 0
    ensures x / 2 / p == x / (2 * p)
  {
    var q := x / 2 / p;
    QuotientBounds(x / 2, p, q);
    QuotientBounds(x, 2 * p, q);
    MultipleOfTwice(q, p);
    MultipleOfTwice(q + 1, p);
    assert Multiple(q, 2 * p) == 2 * Multiple(q, p) && Multiple(q + 1, 2 * p) == 2 * Multiple(q + 1, p);
    hide Multiple;
  }
}
