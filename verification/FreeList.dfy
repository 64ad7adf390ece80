/**
 The free list of the user-level allocator as values: what it means that a circular list is
 in address order, fully coalesced and clear of the live allocations, and what freeing and
 carving do to it.  Addresses and sizes count headers.
 */
module FreeList {
  /** The address of the static header that starts the list; memory from sbrk lies above it. */
  const BASE: nat := 1

  /** struct header */
  datatype Header = Header(ptr: nat, size: nat)

  type Memory = map<nat, Header>

  datatype Block = Block(at: nat, size: nat)

  function End(b: Block): nat { b.at + b.size }

  function Units(blocks: seq<Block>): nat {
    if blocks == [] then 0 else blocks[0].size + Units(blocks[1..])
  }

  lemma {:induction false} UnitsAppend(a: seq<Block>, b: seq<Block>)
    ensures Units(a + b) == Units(a) + Units(b)
  {
    if a == [] {
      assert a + b == b;
    } else {
      assert (a + b)[1..] == a[1..] + b;
      UnitsAppend(a[1..], b);
    }
  }

  // ---- the list ----

  function Next(i: nat, n: nat): nat { if i + 1 < n then i + 1 else 0 }

  predicate Below(a: Block, b: Block) { a.at < b.at && End(a) <= b.at }

  ghost predicate Sorted(ring: seq<Block>) {
    && |ring| > 0 && ring[0] == Block(BASE, 0)
    && (forall i :: 0 < i < |ring| ==> ring[i].size > 0)
    && (forall i, j :: 0 <= i < j < |ring| ==> Below(ring[i], ring[j]))
  }

  /** Block i ends where the next one starts. */
  predicate Touches(ring: seq<Block>, i: nat) { i + 1 < |ring| && End(ring[i]) == ring[i + 1].at }

  /** From base upwards, and coalesced: no two blocks touch. */
  ghost predicate Ordered(ring: seq<Block>) {
    Sorted(ring) && forall i: nat :: !Touches(ring, i)
  }

  /** The header of block i points to the next block, and the last one to the first. */
  ghost predicate LinkedAt(mem: Memory, ring: seq<Block>, i: nat)
    requires i < |ring|
  {
    ring[i].at in mem && mem[ring[i].at] == Header(ring[Next(i, |ring|)].at, ring[i].size)
  }

  /** The headers in memory form one circle through the blocks of ring. */
  ghost predicate Linked(mem: Memory, ring: seq<Block>) {
    forall i :: 0 <= i < |ring| ==> LinkedAt(mem, ring, i)
  }

  /** Every allocation still carries its size. */
  ghost predicate Tagged(mem: Memory, live: seq<Block>) {
    forall k :: 0 <= k < |live| ==> live[k].at in mem && mem[live[k].at].size == live[k].size
  }

  ghost predicate Disjoint(a: Block, b: Block) { End(a) <= b.at || End(b) <= a.at }

  /** The allocations are apart from each other and from the free blocks, between base and the break. */
  ghost predicate Apart(ring: seq<Block>, live: seq<Block>, brk: nat) {
    && (forall i :: 0 <= i < |ring| ==> End(ring[i]) <= brk)
    && (forall k :: 0 <= k < |live| ==> live[k].size > 0 && BASE < live[k].at && End(live[k]) <= brk)
    && (forall k, l :: 0 <= k < l < |live| ==> Disjoint(live[k], live[l]))
    && (forall i, k :: 0 <= i < |ring| && 0 <= k < |live| ==> Disjoint(ring[i], live[k]))
  }

  ghost predicate Layout(ring: seq<Block>, live: seq<Block>, brk: nat, obtained: nat) {
    Ordered(ring) && Apart(ring, live, brk) && Units(ring) + Units(live) == obtained
  }

  // ---- free ----

  /** Block i is the last one below address at. */
  predicate Precedes(ring: seq<Block>, i: nat, at: nat) {
    i < |ring| && ring[i].at < at && (i + 1 < |ring| ==> at < ring[i + 1].at)
  }

  function Insert(ring: seq<Block>, i: nat, b: Block): seq<Block>
    requires i < |ring|
  {
    seq<Block>(|ring| + 1, k requires 0 <= k <= |ring| => if k <= i then ring[k] else if k == i + 1 then b else ring[k - 1])
  }

  /** Blocks i and i + 1 become one. */
  function Join(ring: seq<Block>, i: nat): seq<Block>
    requires i + 1 < |ring|
  {
    seq<Block>(|ring| - 1, k requires 0 <= k < |ring| - 1 =>
      if k < i then ring[k] else if k > i then ring[k + 1] else Block(ring[i].at, ring[i].size + ring[i + 1].size))
  }

  /** The list after block b is freed behind block i: joined with the neighbours it touches. */
  function Freed(ring: seq<Block>, i: nat, b: Block): seq<Block>
    requires i < |ring|
  {
    var r0 := Insert(ring, i, b);
    var r1 := if Touches(r0, i + 1) then Join(r0, i + 1) else r0;
    if Touches(r1, i) then Join(r1, i) else r1
  }

  lemma InsertSorted(ring: seq<Block>, i: nat, b: Block)
    requires Ordered(ring) && Precedes(ring, i, b.at) && b.size > 0
    requires forall j :: 0 <= j < |ring| ==> Disjoint(ring[j], b)
    ensures Sorted(Insert(ring, i, b)) && forall k :: 0 <= k && k != i && k != i + 1 ==> !Touches(Insert(ring, i, b), k)
  {
    var r := Insert(ring, i, b);
    forall j | 0 <= j < |ring| ensures if j <= i then Below(ring[j], b) else Below(b, ring[j]) {
      assert Disjoint(ring[j], b);
      if j < i { assert Below(ring[j], ring[i]); }
      if j > i + 1 { assert Below(ring[i + 1], ring[j]); }
    }
    forall k, l | 0 <= k < l < |r| ensures Below(r[k], r[l]) {
      if k != i + 1 && l != i + 1 { assert Below(ring[if k <= i then k else k - 1], ring[if l <= i then l else l - 1]); }
    }
    forall k | 0 <= k && k != i && k != i + 1 ensures !Touches(r, k) {
      assert !Touches(ring, if k < i then k else k - 1);
    }
  }

  lemma JoinSorted(ring: seq<Block>, i: nat)
    requires Sorted(ring) && Touches(ring, i)
    ensures Sorted(Join(ring, i))
    ensures forall k: nat :: Touches(Join(ring, i), k) <==> Touches(ring, if k < i then k else k + 1)
  {
    var r := Join(ring, i);
    forall k, l | 0 <= k < l < |r| ensures Below(r[k], r[l]) {
      assert Below(ring[if k <= i then k else k + 1], ring[if l <= i then l else l + 1]);
      if k == i { assert Below(ring[i + 1], ring[l + 1]); }
    }
  }

  lemma JoinUnits(ring: seq<Block>, i: nat)
    requires i + 1 < |ring|
    ensures Units(Join(ring, i)) == Units(ring)
  {
    hide Units;
    var joined := Block(ring[i].at, ring[i].size + ring[i + 1].size);
    var low, high := ring[..i], ring[i + 2..];
    assert ring == low + ([ring[i], ring[i + 1]] + high);
    assert Join(ring, i) == low + ([joined] + high);
    PairUnits(ring[i], ring[i + 1], high);
    UnitsAppend(low, [ring[i], ring[i + 1]] + high);
    UnitsAppend(low, [joined] + high);
  }

  lemma OneUnits(b: Block, rest: seq<Block>)
    ensures Units([b] + rest) == b.size + Units(rest)
  {
    assert ([b] + rest)[1..] == rest;
  }

  lemma PairUnits(a: Block, b: Block, rest: seq<Block>)
    ensures Units([a, b] + rest) == Units([Block(a.at, a.size + b.size)] + rest)
  {
    assert [a, b] + rest == [a] + ([b] + rest);
    OneUnits(a, [b] + rest);
    OneUnits(b, rest);
    OneUnits(Block(a.at, a.size + b.size), rest);
  }

  lemma InsertUnits(ring: seq<Block>, i: nat, b: Block)
    requires i < |ring|
    ensures Units(Insert(ring, i, b)) == Units(ring) + b.size
  {
    hide Units;
    var low, high := ring[..i + 1], ring[i + 1..];
    assert ring == low + high && Insert(ring, i, b) == low + ([b] + high);
    OneUnits(b, high);
    UnitsAppend(low, high);
    UnitsAppend(low, [b] + high);
  }

  /** Freeing keeps the list in order and coalesced, and adds the block's units to it. */
  lemma FreedOrdered(ring: seq<Block>, i: nat, b: Block)
    requires Ordered(ring) && Precedes(ring, i, b.at) && b.size > 0
    requires forall j :: 0 <= j < |ring| ==> Disjoint(ring[j], b)
    ensures Ordered(Freed(ring, i, b)) && Units(Freed(ring, i, b)) == Units(ring) + b.size
  {
    hide Sorted, Join, Insert, Units;
    InsertSorted(ring, i, b);
    InsertUnits(ring, i, b);
    var r0 := Insert(ring, i, b);
    if Touches(r0, i + 1) { JoinOk(r0, i + 1); }
    var r1 := if Touches(r0, i + 1) then Join(r0, i + 1) else r0;
    if Touches(r1, i) { JoinOk(r1, i); }
  }

  lemma JoinOk(ring: seq<Block>, i: nat)
    requires Sorted(ring) && Touches(ring, i)
    ensures Sorted(Join(ring, i)) && Units(Join(ring, i)) == Units(ring)
    ensures forall k: nat :: Touches(Join(ring, i), k) <==> Touches(ring, if k < i then k else k + 1)
  {
    JoinSorted(ring, i);
    JoinUnits(ring, i);
  }

  // ---- the writes of free ----

  function InsertWrites(mem: Memory, p: nat, bp: nat): Memory
    requires p in mem && bp in mem
  {
    mem[bp := Header(mem[p].ptr, mem[bp].size)][p := Header(bp, mem[p].size)]
  }

  function JoinWrites(mem: Memory, p: nat): Memory
    requires p in mem && mem[p].ptr in mem
  {
    mem[p := Header(mem[mem[p].ptr].ptr, mem[p].size + mem[mem[p].ptr].size)]
  }

  lemma InsertLinked(mem: Memory, ring: seq<Block>, i: nat, b: Block)
    requires Sorted(ring) && Linked(mem, ring) && Precedes(ring, i, b.at)
    requires b.at in mem && mem[b.at].size == b.size
    ensures ring[i].at in mem && Linked(InsertWrites(mem, ring[i].at, b.at), Insert(ring, i, b))
  {
    assert LinkedAt(mem, ring, i);
    var after, r := InsertWrites(mem, ring[i].at, b.at), Insert(ring, i, b);
    forall k | 0 <= k < |r| ensures LinkedAt(after, r, k) {
      if k < i || k > i + 1 { assert LinkedAt(mem, ring, if k < i then k else k - 1); }
    }
  }

  lemma JoinLinked(mem: Memory, ring: seq<Block>, i: nat)
    requires Sorted(ring) && Linked(mem, ring) && i + 1 < |ring|
    ensures ring[i].at in mem && ring[i + 1].at in mem && mem[ring[i].at].ptr == ring[i + 1].at
    ensures Linked(JoinWrites(mem, ring[i].at), Join(ring, i))
  {
    assert LinkedAt(mem, ring, i) && LinkedAt(mem, ring, i + 1);
    var after, r := JoinWrites(mem, ring[i].at), Join(ring, i);
    forall k | 0 <= k < |r| ensures LinkedAt(after, r, k) {
      assert LinkedAt(mem, ring, if k <= i then k else k + 1);
    }
  }

  /** What free writes: first the header of bp, joined with the block behind p if it touches it, then that of p. */
  function FreeWrites(mem: Memory, p: nat, bp: nat): Memory
    requires p in mem && bp in mem && mem[p].ptr in mem
  {
    var next := mem[p].ptr;
    var b := if bp + mem[bp].size == next then Header(mem[next].ptr, mem[bp].size + mem[next].size)
             else Header(next, mem[bp].size);
    var mem1 := mem[bp := b];
    if p + mem1[p].size == bp then mem1[p := Header(b.ptr, mem1[p].size + b.size)]
    else mem1[p := Header(bp, mem1[p].size)]
  }

  /** The same as an insertion followed by the joins. */
  function StepWrites(mem: Memory, p: nat, bp: nat, upper: bool): Memory
    requires p in mem && bp in mem && (upper ==> mem[p].ptr in mem)
  {
    var m0 := InsertWrites(mem, p, bp);
    if upper then JoinWrites(m0, bp) else m0
  }

  lemma WritesAgree(mem: Memory, p: nat, bp: nat)
    requires p in mem && bp in mem && mem[p].ptr in mem && p < bp
    requires bp + mem[bp].size == mem[p].ptr ==> bp < mem[p].ptr
    ensures var m1 := StepWrites(mem, p, bp, bp + mem[bp].size == mem[p].ptr);
            && m1[p] == Header(bp, mem[p].size) && bp in m1
            && FreeWrites(mem, p, bp) == if p + mem[p].size == bp then JoinWrites(m1, p) else m1
  {
  }

  lemma FreedLinked(mem: Memory, ring: seq<Block>, i: nat, b: Block)
    requires Ordered(ring) && Linked(mem, ring) && Precedes(ring, i, b.at) && b.size > 0
    requires forall j :: 0 <= j < |ring| ==> Disjoint(ring[j], b)
    requires b.at in mem && mem[b.at].size == b.size
    ensures ring[i].at in mem && mem[ring[i].at].ptr in mem
    ensures Linked(FreeWrites(mem, ring[i].at, b.at), Freed(ring, i, b))
  {
    var p := ring[i].at;
    assert LinkedAt(mem, ring, i) && LinkedAt(mem, ring, Next(i, |ring|));
    var m0, r0 := InsertWrites(mem, p, b.at), Insert(ring, i, b);
    var upper := b.at + b.size == mem[p].ptr;
    assert r0[i] == ring[i] && r0[i + 1] == b && (i + 1 < |ring| ==> r0[i + 2] == ring[i + 1]);
    assert upper <==> Touches(r0, i + 1) by {
      if i > 0 { assert Below(ring[0], ring[i]); }
    }
    InsertSorted(ring, i, b);
    InsertLinked(mem, ring, i, b);
    WritesAgree(mem, p, b.at);
    hide Linked, Sorted, Join, Insert, LinkedAt, JoinWrites, InsertWrites, FreeWrites;
    if upper { JoinLinked(m0, r0, i + 1); JoinSorted(r0, i + 1); }
    var m1 := StepWrites(mem, p, b.at, upper);
    var r1 := if upper then Join(r0, i + 1) else r0;
    JoinKeeps(r0, i + 1);
    if Touches(r1, i) { JoinLinked(m1, r1, i); }
  }

  lemma JoinKeeps(ring: seq<Block>, i: nat)
    requires 0 < i && i < |ring|
    ensures i + 1 < |ring| ==> |Join(ring, i)| > i && Join(ring, i)[i - 1] == ring[i - 1] && Join(ring, i)[i].at == ring[i].at
  {
  }

  // ---- the allocations stay clear ----

  ghost predicate Clear(ring: seq<Block>, x: Block, brk: nat) {
    forall j :: 0 <= j < |ring| ==> Disjoint(ring[j], x) && End(ring[j]) <= brk
  }

  lemma InsertClear(ring: seq<Block>, i: nat, b: Block, x: Block, brk: nat)
    requires i < |ring| && Clear(ring, x, brk) && Disjoint(b, x) && End(b) <= brk
    ensures Clear(Insert(ring, i, b), x, brk)
  {
  }

  lemma JoinClear(ring: seq<Block>, i: nat, x: Block, brk: nat)
    requires Touches(ring, i) && Clear(ring, x, brk) && x.size > 0
    ensures Clear(Join(ring, i), x, brk)
  {
  }

  lemma FreedClear(ring: seq<Block>, i: nat, b: Block, x: Block, brk: nat)
    requires i < |ring| && Clear(ring, x, brk) && Disjoint(b, x) && End(b) <= brk && x.size > 0
    ensures Clear(Freed(ring, i, b), x, brk)
  {
    InsertClear(ring, i, b, x, brk);
    hide Clear, Insert, Join;
    var r0 := Insert(ring, i, b);
    if Touches(r0, i + 1) { JoinClear(r0, i + 1, x, brk); }
    var r1 := if Touches(r0, i + 1) then Join(r0, i + 1) else r0;
    if Touches(r1, i) { JoinClear(r1, i, x, brk); }
  }

  /** The blocks without block i. */
  function Dropped(ring: seq<Block>, i: nat): seq<Block>
    requires i < |ring|
  {
    seq<Block>(|ring| - 1, k requires 0 <= k < |ring| - 1 => if k < i then ring[k] else ring[k + 1])
  }

  lemma DroppedUnits(live: seq<Block>, k: nat)
    requires k < |live|
    ensures Units(Dropped(live, k)) + live[k].size == Units(live)
  {
    hide Units;
    var low, high := live[..k], live[k + 1..];
    assert live == low + ([live[k]] + high) && Dropped(live, k) == low + high;
    UnitsAppend(low, [live[k]] + high);
    UnitsAppend(low, high);
    OneUnits(live[k], high);
  }

  lemma FreedApart(ring: seq<Block>, live: seq<Block>, brk: nat, i: nat, k: nat)
    requires Apart(ring, live, brk) && i < |ring| && k < |live|
    ensures Apart(Freed(ring, i, live[k]), Dropped(live, k), brk)
  {
    var r, after := Freed(ring, i, live[k]), Dropped(live, k);
    hide Freed;
    forall l | 0 <= l < |after| ensures Clear(r, after[l], brk) {
      var o := if l < k then l else l + 1;
      assert Disjoint(live[k], live[o]);
      FreedClear(ring, i, live[k], live[o], brk);
    }
    FreedEnds(ring, i, live[k], brk);
  }

  /** The whole layout after live block k is freed behind block i. */
  lemma FreedLayout(ring: seq<Block>, live: seq<Block>, brk: nat, obtained: nat, i: nat, k: nat)
    requires Layout(ring, live, brk, obtained) && k < |live| && Precedes(ring, i, live[k].at)
    ensures Layout(Freed(ring, i, live[k]), Dropped(live, k), brk, obtained)
  {
    hide Ordered, Freed, Dropped, Units;
    FreedOrdered(ring, i, live[k]);
    DroppedUnits(live, k);
    FreedApart(ring, live, brk, i, k);
  }

  lemma FreedEnds(ring: seq<Block>, i: nat, b: Block, brk: nat)
    requires i < |ring| && (forall j :: 0 <= j < |ring| ==> End(ring[j]) <= brk) && End(b) <= brk
    ensures forall j :: 0 <= j < |Freed(ring, i, b)| ==> End(Freed(ring, i, b)[j]) <= brk
  {
    var far := Block(brk, 1);
    assert Clear(ring, far, brk);
    FreedClear(ring, i, b, far, brk);
  }

  // ---- malloc ----

  /** What is left of the list after n units are cut from the end of block i, and the block cut. */
  function Carved(ring: seq<Block>, i: nat, n: nat): (seq<Block>, Block)
    requires i < |ring| && n <= ring[i].size
  {
    if ring[i].size == n then (Dropped(ring, i), ring[i])
    else
      var rest := Block(ring[i].at, ring[i].size - n);
      (ring[i := rest], Block(End(rest), n))
  }

  lemma CarvedOrdered(ring: seq<Block>, i: nat, n: nat)
    requires Ordered(ring) && i < |ring| && 0 < n <= ring[i].size
    ensures var (r, b) := Carved(ring, i, n); Ordered(r) && Units(r) + n == Units(ring)
  {
    var (r, b) := Carved(ring, i, n);
    if ring[i].size == n {
      forall k, l | 0 <= k < l < |r| ensures Below(r[k], r[l]) {
        assert Below(ring[if k < i then k else k + 1], ring[if l < i then l else l + 1]);
      }
      forall k: nat ensures !Touches(r, k) {
        if k + 1 < |r| {
          assert !Touches(ring, if k < i then k else k + 1);
          if k == i - 1 { assert Below(ring[k], ring[i]) && Below(ring[i], ring[i + 1]); }
        }
      }
    } else {
      forall k, l | 0 <= k < l < |r| ensures Below(r[k], r[l]) { assert Below(ring[k], ring[l]); }
      forall k: nat ensures !Touches(r, k) {
        assert !Touches(ring, k);
        if k == i && k + 1 < |r| { assert Below(ring[k], ring[k + 1]); }
      }
    }
    CarvedUnits(ring, i, n);
  }

  lemma CarvedUnits(ring: seq<Block>, i: nat, n: nat)
    requires i < |ring| && n <= ring[i].size
    ensures Units(Carved(ring, i, n).0) + n == Units(ring)
  {
    hide Units;
    DroppedUnits(ring, i);
    if ring[i].size != n {
      var low, high := ring[..i], ring[i + 1..];
      assert Dropped(ring, i) == low + high;
      UnitsAppend(low, high);
      var rest := Block(ring[i].at, ring[i].size - n);
      assert ring[i := rest] == low + ([rest] + high);
      OneUnits(rest, high);
      UnitsAppend(low, [rest] + high);
    }
  }

  lemma CarvedApart(ring: seq<Block>, live: seq<Block>, brk: nat, i: nat, n: nat)
    requires Ordered(ring) && Apart(ring, live, brk) && i < |ring| && 0 < n <= ring[i].size
    ensures var (r, b) := Carved(ring, i, n); Apart(r, live + [b], brk)
  {
    var (r, b) := Carved(ring, i, n);
    assert BASE < b.at by { assert Below(ring[0], ring[i]); }
    assert ring[i].at <= b.at && End(b) == End(ring[i]);
    forall k | 0 <= k < |live| ensures Disjoint(live[k], b) { assert Disjoint(ring[i], live[k]); }
    forall j | 0 <= j < |r| ensures Disjoint(r[j], b) {
      var o := if ring[i].size == n && j >= i then j + 1 else j;
      if o < i { assert Below(ring[o], ring[i]); }
      if o > i { assert Below(ring[i], ring[o]); }
    }
    forall j, k | 0 <= j < |r| && 0 <= k < |live| ensures Disjoint(r[j], live[k]) {
      assert Disjoint(ring[if ring[i].size == n && j >= i then j + 1 else j], live[k]);
    }
  }

  lemma CarvedLayout(ring: seq<Block>, live: seq<Block>, brk: nat, obtained: nat, i: nat, n: nat)
    requires Layout(ring, live, brk, obtained) && i < |ring| && 0 < n <= ring[i].size
    ensures var (r, b) := Carved(ring, i, n); Layout(r, live + [b], brk, obtained)
  {
    var (r, b) := Carved(ring, i, n);
    CarvedOrdered(ring, i, n);
    CarvedApart(ring, live, brk, i, n);
    UnitsAppend(live, [b]);
    assert Units([b]) == b.size by { OneUnits(b, []); assert [b] + [] == [b]; }
  }

  function At(mem: Memory, a: nat): Header { if a in mem then mem[a] else Header(0, 0) }

  /** What malloc writes when it takes n units from block p, whose predecessor is prev. */
  function MallocWrites(mem: Memory, prev: nat, p: nat, n: nat): Memory
    requires prev in mem && p in mem && n <= mem[p].size
  {
    if mem[p].size == n then mem[prev := Header(mem[p].ptr, mem[prev].size)]
    else
      var rest := Header(mem[p].ptr, mem[p].size - n);
      var mem1 := mem[p := rest];
      mem1[p + rest.size := Header(At(mem1, p + rest.size).ptr, n)]
  }

  lemma CarvedLinked(mem: Memory, ring: seq<Block>, i: nat, n: nat)
    requires Ordered(ring) && Linked(mem, ring) && 0 < i < |ring| && 0 < n <= ring[i].size
    ensures ring[i - 1].at in mem && ring[i].at in mem && mem[ring[i].at].size == ring[i].size
    ensures var (r, b) := Carved(ring, i, n); var after := MallocWrites(mem, ring[i - 1].at, ring[i].at, n);
            Linked(after, r) && At(after, b.at).size == n && b.at in after
  {
    assert LinkedAt(mem, ring, i - 1) && LinkedAt(mem, ring, i) && Below(ring[i - 1], ring[i]);
    var (r, b) := Carved(ring, i, n);
    var after := MallocWrites(mem, ring[i - 1].at, ring[i].at, n);
    forall k | 0 <= k < |r| ensures LinkedAt(after, r, k) {
      var o := if ring[i].size == n && k >= i then k + 1 else k;
      assert LinkedAt(mem, ring, o);
      if o < i { assert Below(ring[o], ring[i]); }
      if o > i { assert Below(ring[i], ring[o]) && Below(ring[i - 1], ring[o]); }
      if o < i - 1 { assert Below(ring[o], ring[i - 1]); }
    }
  }
}
