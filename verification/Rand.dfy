/**
 The random number generator: the array that is regenerated in place, against the infinite
 sequence it stands for, and the rejection loop on top of it.
 */
module Rand {
  import opened Basics

  const N: nat := 624
  const M: nat := 397
  const MATRIX_A: bv32 := 0x9908b0df
  const UPPER_MASK: bv32 := 0x80000000
  const LOWER_MASK: bv32 := 0x7fffffff
  const TEMPERING_MASK_B: bv32 := 0x9d2c5680
  const TEMPERING_MASK_C: bv32 := 0xefc60000
  const DEFAULT_SEED: bv32 := 4357
  const RAND_MAX: nat := 0x7fffffff

  // ---- the sequence ----

  /** Line 25 of Knuth's table. */
  function Congruence(w: bv32): bv32 { Product(69069, w) }

  function Product(a: bv32, b: bv32): bv32 { (a * b) & 0xffffffff }

  function Mag01(y: bv32): bv32 { if Even(y) then 0 else MATRIX_A }

  predicate Even(y: bv32) { y & 1 == 0 }

  // Shifts and exclusive ors by name, so that lemmas calculate with them and not with single bits.
  function Xor(a: bv32, b: bv32): bv32 { a ^ b }
  function Down1(y: bv32): bv32 { y >> 1 }
  function Down11(y: bv32): bv32 { y >> 11 }
  function Down18(y: bv32): bv32 { y >> 18 }
  function Down22(y: bv32): bv32 { y >> 22 }

  /** The top bit of one word and the others of the next. */
  function Mixed(a: bv32, b: bv32): bv32 { (a & UPPER_MASK) | (b & LOWER_MASK) }

  function Twist(a: bv32, b: bv32, c: bv32): bv32 {
    var y := Mixed(a, b);
    Xor(Xor(c, Down1(y)), Mag01(y))
  }

  /** Word k of the sequence that starts from seed: a linear congruence for the first N words, then the recurrence. */
  function X(seed: bv32, k: nat): bv32 {
    if k == 0 then seed
    else if k < N then Congruence(X(seed, k - 1))
    else Twist(X(seed, k - N), X(seed, k - N + 1), X(seed, k - N + M))
  }

  // ---- tempering: four steps, and each undone ----

  function StepU(y: bv32): bv32 { Xor(y, Down11(y)) }
  function StepS(y: bv32): bv32 { y ^ ((y << 7) & TEMPERING_MASK_B) }
  function StepT(y: bv32): bv32 { y ^ ((y << 15) & TEMPERING_MASK_C) }
  function StepL(y: bv32): bv32 { Xor(y, Down18(y)) }

  function Temper(y: bv32): bv32 { StepL(StepT(StepS(StepU(y)))) }

  function UndoU(z: bv32): bv32 { Xor(Xor(z, Down11(z)), Down22(z)) }
  function UndoS(z: bv32): bv32 {
    var c := z ^ ((z << 7) & 0x00001680);
    var d := c ^ ((c << 7) & 0x000c4000);
    var e := d ^ ((d << 7) & 0x0d200000);
    e ^ ((e << 7) & 0x90000000)
  }
  function UndoT(z: bv32): bv32 { z ^ ((z << 15) & 0xefc60000) }
  function UndoL(z: bv32): bv32 { Xor(z, Down18(z)) }

  /** The inverse of the tempering, with its own shifts and masks. */
  function Untemper(z: bv32): bv32 { UndoU(UndoS(UndoT(UndoL(z)))) }

  lemma XorCancels(y: bv32, a: bv32, b: bv32)
    ensures Xor(Xor(Xor(y, a), Xor(a, b)), Xor(b, 0)) == y && Xor(Xor(y, a), Xor(a, 0)) == y
  {
  }

  lemma DownOfXor11(a: bv32, b: bv32)
    ensures Down11(Xor(a, b)) == Xor(Down11(a), Down11(b))
  {
  }

  lemma DownOfXor18(a: bv32, b: bv32)
    ensures Down18(Xor(a, b)) == Xor(Down18(a), Down18(b))
  {
  }

  lemma DownOfXor22(a: bv32, b: bv32)
    ensures Down22(Xor(a, b)) == Xor(Down22(a), Down22(b))
  {
  }

  lemma DownTwice(y: bv32)
    ensures Down11(Down11(y)) == Down22(y) && Down22(Down11(y)) == 0 && Down18(Down18(y)) == 0
  {
  }

  lemma UndoneU(y: bv32)
    ensures UndoU(StepU(y)) == y
  {
    hide Xor, Down11, Down22;
    var a := Down11(y);
    DownOfXor11(y, a);
    DownOfXor22(y, a);
    DownTwice(y);
    XorCancels(y, a, Down22(y));
  }

  lemma UndoneL(y: bv32)
    ensures UndoL(StepL(y)) == y
  {
    hide Xor, Down18;
    DownOfXor18(y, Down18(y));
    DownTwice(y);
    XorCancels(y, Down18(y), 0);
  }

  lemma UndoneS(y: bv32)
    ensures UndoS(StepS(y)) == y
  {
  }

  lemma UndoneT(y: bv32)
    ensures UndoT(StepT(y)) == y
  {
  }

  /** The tempering is the one map that this inverse undoes, for every word. */
  lemma TemperIsUndone(y: bv32)
    ensures Untemper(Temper(y)) == y
  {
    hide StepU, StepS, StepT, StepL, UndoU, UndoS, UndoT, UndoL;
    UndoneU(y);
    UndoneS(StepU(y));
    UndoneT(StepS(StepU(y)));
    UndoneL(StepT(StepS(StepU(y))));
  }

  // ---- the terms, without the functions that compute them ----

  function Times(a: bv32, b: bv32): bv32 { a * b }

  /** 69069 to the power of n, modulo 2^32. */
  function Power(n: nat): bv32 { if n == 0 then 1 else Times(69069, Power(n - 1)) }

  lemma TimesIs(a: bv32, b: bv32)
    ensures Times(a, b) == a * b
  {
  }

  lemma TimesOne(y: bv32)
    ensures Times(y, 1) == y
  {
  }

  lemma TimesInner(a: bv32, b: bv32, c: bv32)
    ensures Times(a, Times(b, c)) == Times(a, b * c)
  {
    hide *;
    TimesIs(b, c);
  }

  lemma TimesSwapsRaw(a: bv32, b: bv32, c: bv32)
    ensures Times(a, b * c) == Times(b, a * c)
  {
  }

  lemma TimesSwaps(a: bv32, b: bv32, c: bv32)
    ensures Times(a, Times(b, c)) == Times(b, Times(a, c))
  {
    hide *;
    TimesInner(a, b, c);
    TimesInner(b, a, c);
    TimesSwapsRaw(a, b, c);
  }

  lemma ProductIs(a: bv32, b: bv32)
    ensures Product(a, b) == Times(a, b)
  {
  }

  /** The first 624 terms are the seed times the powers of 69069, modulo 2^32. */
  lemma {:induction false} SeedTerms(seed: bv32, k: nat)
    requires k < 624
    ensures X(seed, k) == Times(seed, Power(k))
  {
    hide Product, Twist, Times;
    if k > 0 {
      SeedTerms(seed, k - 1);
      ProductIs(69069, X(seed, k - 1));
      TimesSwaps(seed, 69069, Power(k - 1));
    } else {
      TimesOne(seed);
    }
  }

  /** What the word 624 places back and the one after it gave to a term r, from r and the word 227 places back. */
  function Untwist(c: bv32, r: bv32): bv32 {
    var d := Xor(c, r);
    if Top(d) then Odd(Up1(Xor(d, 0x9908b0df))) else Up1(d)
  }

  predicate Top(d: bv32) { d & 0x80000000 != 0 }
  function Up1(d: bv32): bv32 { d << 1 }
  function Odd(d: bv32): bv32 { d | 1 }

  lemma XorSwaps(a: bv32, b: bv32)
    ensures Xor(a, b) == Xor(b, a)
  {
  }

  lemma XorGroups(a: bv32, b: bv32, c: bv32)
    ensures Xor(Xor(a, b), c) == Xor(a, Xor(b, c))
  {
  }

  lemma XorAway(c: bv32, a: bv32, b: bv32)
    ensures Xor(c, Xor(Xor(c, a), b)) == Xor(a, b)
  {
    hide *;
    XorGroups(c, a, b);
    XorSwaps(c, Xor(a, b));
    XorSwaps(c, Xor(c, Xor(a, b)));
    XorTwice(Xor(a, b), c);
  }

  lemma XorTwice(a: bv32, b: bv32)
    ensures Xor(Xor(a, b), b) == a
  {
  }

  lemma XorZero(a: bv32)
    ensures Xor(a, 0) == a
  {
  }

  lemma DownIsNotTop(y: bv32)
    ensures !Top(Down1(y))
  {
  }

  lemma MatrixIsTop(y: bv32)
    ensures Top(Xor(Down1(y), 0x9908b0df))
  {
  }

  lemma UpAgain(y: bv32)
    ensures if Even(y) then Up1(Down1(y)) == y else Odd(Up1(Down1(y))) == y
  {
  }

  lemma TwistIsUndone(a: bv32, b: bv32, c: bv32)
    ensures Untwist(c, Twist(a, b, c)) == Mixed(a, b)
  {
    hide Xor, Down1, Up1, Odd, Top, Even, Mixed;
    var y := Mixed(a, b);
    XorAway(c, Down1(y), Mag01(y));
    XorTwice(Down1(y), 0x9908b0df);
    XorZero(Down1(y));
    DownIsNotTop(y);
    MatrixIsTop(y);
    UpAgain(y);
  }

  lemma MixedIs(a: bv32, b: bv32)
    ensures Mixed(a, b) == (a & 0x80000000) | (b & 0x7fffffff)
  {
  }

  /** Every term from 624 on is the one that gives back, with its own shifts, the top bit of the word 624 places before it
      and the other bits of the next. */
  lemma LaterTerms(seed: bv32, k: nat)
    ensures Untwist(X(seed, k + 397), X(seed, k + 624)) == Mixed(X(seed, k), X(seed, k + 1))
  {
    RecurrenceIs(seed, k);
    hide *;
    TwistIsUndone(X(seed, k), X(seed, k + 1), X(seed, k + 397));
  }

  lemma RecurrenceIs(seed: bv32, k: nat)
    ensures X(seed, k + 624) == Twist(X(seed, k), X(seed, k + 1), X(seed, k + 397))
  {
    hide Twist;
    Recurrence(seed, k);
  }

  function Low31(y: bv32): (r: nat)
    ensures r <= RAND_MAX
  {
    (y & LOWER_MASK) as nat
  }

  /** What the call number n of genrand returns. */
  function Output(seed: bv32, n: nat): nat { Low31(Temper(X(seed, N + n))) }

  lemma Recurrence(seed: bv32, k: nat)
    ensures X(seed, N + k) == Twist(X(seed, k), X(seed, k + 1), X(seed, k + M))
  {
  }

  // ---- random_at_most ----

  const NUM_RAND: nat := RAND_MAX + 1

  function BinSize(max: nat): (b: nat)
    ensures max <= RAND_MAX ==> b > 0
  {
    NUM_RAND / (max + 1)
  }

  function Defect(max: nat): (d: nat)
    ensures d <= max && d <= NUM_RAND
  {
    assert NUM_RAND == NUM_RAND / (max + 1) * (max + 1) + NUM_RAND % (max + 1);
    NUM_RAND % (max + 1)
  }

  /** The largest multiple of max + 1 that is at most NUM_RAND: raw values from there on are thrown away. */
  function Limit(max: nat): nat { NUM_RAND - Defect(max) }

  lemma LimitIsBins(max: nat)
    ensures Limit(max) == (max + 1) * BinSize(max)
    ensures max <= RAND_MAX ==> BinSize(max) > 0
  {
    var d := max + 1;
    assert NUM_RAND == NUM_RAND / d * d + NUM_RAND % d;
  }

  lemma LimitIs(max: nat)
    ensures Limit(max) == NUM_RAND - Defect(max)
  {
  }

  /** More than half of all raw values are accepted. */
  lemma MoreThanHalf(max: nat)
    requires max <= RAND_MAX
    ensures 2 * Limit(max) > NUM_RAND
  {
    LimitIsBins(max);
    assert (max + 1) * BinSize(max) >= max + 1;
  }

  /** The raw values below the limit that give r are the r-th run of BinSize values, for r up to max. */
  lemma BinOf(max: nat, x: nat, r: nat)
    requires max <= RAND_MAX
    ensures BinSize(max) > 0
    ensures x < Limit(max) && x / BinSize(max) == r <==> r <= max && r * BinSize(max) <= x < (r + 1) * BinSize(max)
  {
    LimitIsBins(max);
    hide BinSize, Limit;
    var b := BinSize(max);
    DivIs(x, b, r);
    if r <= max { assert (r + 1) * b <= (max + 1) * b; }
    if r > max { assert r * b >= (max + 1) * b; }
  }

  // ---- the generator ----

  /** The first n words of mt have moved on by N; the rest have not. */
  ghost predicate Half(mt: seq<bv32>, seed: bv32, first: nat, n: nat) {
    && |mt| == N && n <= N
    && forall i :: 0 <= i < N ==> mt[i] == X(seed, if i < n then first + N + i else first + i)
  }

  lemma HalfStep(mt: seq<bv32>, seed: bv32, first: nat, k: nat, w: bv32)
    requires Half(mt, seed, first, k) && k < N
    requires w == Twist(mt[k], mt[if k + 1 < N then k + 1 else 0], mt[if k + M < N then k + M else k + M - N])
    ensures Half(mt[k := w], seed, first, k + 1)
  {
    hide X, Twist;
    Recurrence(seed, first + k);
    assert N + (first + k) == first + N + k;
    assert mt[k] == X(seed, first + k);
    assert mt[if k + 1 < N then k + 1 else 0] == X(seed, first + k + 1);
    assert mt[if k + M < N then k + M else k + M - N] == X(seed, first + k + M);
    assert w == X(seed, first + N + k);
    var after := mt[k := w];
    forall i | 0 <= i < N ensures after[i] == X(seed, if i < k + 1 then first + N + i else first + i) {
      assert i != k ==> after[i] == mt[i];
    }
  }

  lemma SeedWord(s: bv32, k: nat)
    requires 0 < k < N
    ensures X(s, k) == Congruence(X(s, k - 1))
  {
    hide Congruence;
  }

  lemma SeedStart(s: bv32)
    ensures X(s, 0) == s & 0xffffffff
  {
    Whole(s);
  }

  lemma Whole(y: bv32)
    ensures y & 0xffffffff == y
  {
  }

  class Generator {
    const mt: array<bv32>
    var mti: nat
    ghost var seed: bv32  // what the state was seeded with
    ghost var calls: nat  // the calls of genrand since then

    /** mti is N + 1 until the state is seeded; after that mt is a window on the sequence, and mti the next word of it. */
    ghost predicate Valid()
      reads this, mt
    {
      && mt.Length == N
      && if mti == N + 1 then calls == 0 && seed == DEFAULT_SEED
         else mti <= N && mti <= N + calls && Half(mt[..], seed, N + calls - mti, 0)
    }

    constructor ()
      ensures Valid() && fresh(mt) && seed == DEFAULT_SEED && calls == 0
    {
      mt := new bv32[N];
      mti, seed, calls := N + 1, DEFAULT_SEED, 0;
    }

    method Sgenrand(s: bv32)
      requires mt.Length == N
      modifies this, mt
      ensures Valid() && mti == N && seed == s && calls == 0
    {
      hide X, Twist, Congruence;
      SeedStart(s);
      mt[0] := s & 0xffffffff;
      mti := 1;
      while mti < N
        invariant 1 <= mti <= N
        invariant forall i :: 0 <= i < mti ==> mt[i] == X(s, i)
      {
        SeedWord(s, mti);
        mt[mti] := Congruence(mt[mti - 1]);
        mti := mti + 1;
      }
      seed, calls := s, 0;
    }

    /** The regeneration: two loops and the last word. */
    method Regenerate(ghost first: nat)
      requires mt.Length == N && Half(mt[..], seed, first, 0)
      modifies mt
      ensures Half(mt[..], seed, first + N, 0)
    {
      hide X, Twist, Half;
      var kk := 0;
      while kk < N - M
        invariant 0 <= kk <= N - M && Half(mt[..], seed, first, kk)
      {
        var w := Twist(mt[kk], mt[kk + 1], mt[kk + M]);
        HalfStep(mt[..], seed, first, kk, w);
        mt[kk] := w;
        kk := kk + 1;
      }
      while kk < N - 1
        invariant N - M <= kk <= N - 1 && Half(mt[..], seed, first, kk)
      {
        var w := Twist(mt[kk], mt[kk + 1], mt[kk + M - N]);
        HalfStep(mt[..], seed, first, kk, w);
        mt[kk] := w;
        kk := kk + 1;
      }
      var w := Twist(mt[N - 1], mt[0], mt[M - 1]);
      HalfStep(mt[..], seed, first, N - 1, w);
      mt[N - 1] := w;
      AllMoved(mt[..], seed, first);
    }

    /** genrand: call number n since seeding returns output n, whatever n is. */
    method Genrand() returns (r: nat)
      requires Valid()
      modifies this, mt
      ensures Valid() && seed == old(seed) && calls == old(calls) + 1
      ensures r == Output(seed, old(calls))
    {
      hide X, Twist, Half, Temper, Low31;
      if mti >= N {
        if mti == N + 1 { Sgenrand(DEFAULT_SEED); }
        Regenerate(calls);
        mti := 0;
      }
      WindowWord(mt[..], seed, N + calls - mti, mti);
      var y := mt[mti];
      mti := mti + 1;
      calls := calls + 1;
      return Low31(Temper(y));
    }

    /** random_at_most: the first raw value below the limit decides.  The loop ends because some later value, n calls
        ahead, is below it; which of them is first does not depend on n. */
    method RandomAtMost(max: nat, ghost n: nat) returns (r: nat)
      requires Valid() && max <= RAND_MAX && Output(seed, calls + n) < Limit(max)
      modifies this, mt
      ensures Valid() && seed == old(seed) && calls > old(calls)
      ensures Output(seed, calls - 1) < Limit(max) && r == Output(seed, calls - 1) / BinSize(max) <= max
      ensures forall k :: old(calls) <= k < calls - 1 ==> Output(seed, k) >= Limit(max)
    {
      hide Output, Half, BinSize, Defect, Limit, Xor, Product, Times, Down1, Down11, Down18, Down22;
      LimitIsBins(max);
      LimitIs(max);
      var binSize := BinSize(max);
      var defect := Defect(max);
      ghost var last := calls + n;
      var x := Genrand();
      while NUM_RAND - defect <= x
        invariant Valid() && seed == old(seed) && old(calls) < calls <= last + 1 && x == Output(seed, calls - 1)
        invariant forall k :: old(calls) <= k < calls - 1 ==> Output(seed, k) >= Limit(max)
        decreases last + 1 - calls
      {
        x := Genrand();
      }
      BinOf(max, x, x / binSize);
      return x / binSize;
    }
  }

  lemma AllMoved(mt: seq<bv32>, seed: bv32, first: nat)
    requires Half(mt, seed, first, N)
    ensures Half(mt, seed, first + N, 0)
  {
  }

  lemma WindowWord(mt: seq<bv32>, seed: bv32, first: nat, i: nat)
    requires Half(mt, seed, first, 0) && i < N
    ensures |mt| == N && mt[i] == X(seed, first + i)
  {
  }

  // ---- the first value ----

  lemma {:induction false} PowerSum(m: nat, n: nat)
    ensures Power(m + n) == Times(Power(m), Power(n))
  {
    hide Times;
    if m == 0 {
      TimesOne(Power(n));
      TimesCommutes(1, Power(n));
    } else {
      PowerSum(m - 1, n);
      TimesGroups(69069, Power(m - 1), Power(n));
    }
  }

  lemma TimesCommutes(a: bv32, b: bv32)
    ensures Times(a, b) == Times(b, a)
  {
  }

  lemma TimesGroups(a: bv32, b: bv32, c: bv32)
    ensures Times(a, Times(b, c)) == Times(Times(a, b), c)
  {
    hide *;
    TimesSwaps(a, b, c);
    TimesCommutes(b, Times(a, c));
    TimesCommutes(a, c);
    TimesSwaps(c, a, b);
    TimesCommutes(c, Times(a, b));
    TimesCommutes(Times(c, a), b);
    TimesCommutes(c, b);
    TimesSwaps(a, c, b);
  }

  lemma Products()
    ensures Times(0x10dcd, 0x10dcd) == 0x1c587629 && Times(0x10dcd, 0x1c587629) == 0xa6ffb3d5
    ensures Times(0xa6ffb3d5, 0xa6ffb3d5) == 0xfca98f39 && Times(0xfca98f39, 0xfca98f39) == 0xa162bab1
    ensures Times(0xa162bab1, 0xa162bab1) == 0x19a9ae61 && Times(0x19a9ae61, 0x19a9ae61) == 0xa4da00c1
    ensures Times(0x10dcd, 0xa4da00c1) == 0x155d678d && Times(0x155d678d, 0x155d678d) == 0x8854c3a9
    ensures Times(0x10dcd, 0x8854c3a9) == 0x3d794355 && Times(0x3d794355, 0x3d794355) == 0x3a0f9a39
    ensures Times(0x3a0f9a39, 0x3a0f9a39) == 0x4396a0b1 && Times(0x10dcd, 0x4396a0b1) == 0x6678aabd
    ensures Times(4357, 0x10dcd) == 0x11efe201 && Times(4357, 0x6678aabd) == 0x03b1e2b1 && Times(69069, 1) == 0x10dcd
  {
  }

  lemma Powers()
    ensures Power(1) == 0x10dcd && Power(397) == 0x6678aabd
  {
    hide Times;
    Products();
    assert Power(1) == 0x10dcd by { assert Power(0) == 1; }
    PowerSum(1, 1);
    PowerSum(1, 2);
    PowerSum(3, 3);
    PowerSum(6, 6);
    PowerSum(12, 12);
    PowerSum(24, 24);
    PowerSum(1, 48);
    PowerSum(49, 49);
    PowerSum(1, 98);
    PowerSum(99, 99);
    PowerSum(198, 198);
    PowerSum(1, 396);
  }

  lemma FirstTwist()
    ensures Twist(4357, 0x11efe201, 0x03b1e2b1) == 0x924ea36e
  {
  }

  lemma FirstTemper()
    ensures Temper(0x924ea36e) == 0xd13c8af5
  {
  }

  lemma FirstLow()
    ensures Low31(0xd13c8af5) == 1362922229
  {
  }

  /** The first value that genrand returns without a seed. */
  lemma FirstValue()
    ensures Output(DEFAULT_SEED, 0) == 1362922229
  {
    hide X, Twist, Temper, Low31, Times, Power;
    Products();
    Powers();
    SeedTerms(4357, 0);
    SeedTerms(4357, 1);
    SeedTerms(4357, 397);
    SeedIs(4357);
    RecurrenceIs(4357, 0);
    FirstTwist();
    FirstTemper();
    FirstLow();
  }

  lemma SeedIs(seed: bv32)
    ensures X(seed, 0) == seed
  {
  }
}
