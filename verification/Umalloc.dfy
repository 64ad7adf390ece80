/**
 The user-level allocator: free, morecore and malloc over the circular list of headers,
 against the layout of FreeList.  What sbrk answers is a parameter.
 */
module Umalloc {
  import opened FreeList

  const HEADER_BYTES: nat := 8
  const UINT: nat := 0x1_0000_0000
  const MIN_UNITS: nat := 4096

  /** nunits of malloc, in 32-bit arithmetic. */
  function Nunits(nbytes: nat): nat { (nbytes + HEADER_BYTES - 1) % UINT / HEADER_BYTES + 1 }

  /** The block behind the header holds the bytes asked for exactly when rounding up does not wrap around. */
  lemma EnoughExactly(nbytes: nat)
    requires nbytes < UINT
    ensures (Nunits(nbytes) - 1) * HEADER_BYTES >= nbytes <==> nbytes + HEADER_BYTES - 1 < UINT
  {
  }

  /** A request in the last seven bytes of the range gets a block with no room at all. */
  lemma WrappedRequest()
    ensures Nunits(UINT - 1) == 1
  {
  }

  /** The index reached from freep, at index f, after going round the list d + 1 steps. */
  function Off(f: nat, d: nat, n: nat): nat
    requires f < n && d < n
  {
    if f + 1 + d < n then f + 1 + d else f + 1 + d - n
  }

  function Prev(i: nat, n: nat): nat
    requires i < n
  {
    if i > 0 then i - 1 else n - 1
  }

  /** The first d blocks after freep are too small. */
  ghost predicate TooSmall(ring: seq<Block>, f: nat, d: nat, n: nat)
    requires f < |ring| && d <= |ring|
  {
    forall e :: 0 <= e < d ==> ring[Off(f, e, |ring|)].size < n
  }

  ghost predicate NoneFits(ring: seq<Block>, n: nat) { forall j :: 0 <= j < |ring| ==> ring[j].size < n }

  lemma OnceRound(ring: seq<Block>, f: nat, n: nat)
    requires f < |ring| && TooSmall(ring, f, |ring|, n)
    ensures NoneFits(ring, n)
  {
    forall j | 0 <= j < |ring| ensures ring[j].size < n {
      assert j == Off(f, if j > f then j - f - 1 else j + |ring| - f - 1, |ring|);
    }
  }

  lemma FreedFits(ring: seq<Block>, i: nat, b: Block, n: nat)
    requires i < |ring| && n <= b.size
    ensures !NoneFits(Freed(ring, i, b), n)
  {
    var r0 := Insert(ring, i, b);
    var r1 := if Touches(r0, i + 1) then Join(r0, i + 1) else r0;
    assert r0[i + 1] == b;
    assert r1[i + 1].size >= n;
    var r2 := Freed(ring, i, b);
    assert if Touches(r1, i) then r2[i].size >= n else r2[i + 1].size >= n;
  }

  /** Some block is the last one below an address above base. */
  lemma {:induction false} PlaceExists(ring: seq<Block>, at: nat, n: nat) returns (t: nat)
    requires Sorted(ring) && BASE < at && 0 < n <= |ring|
    requires forall j :: n <= j < |ring| ==> at < ring[j].at
    requires forall j :: 0 <= j < |ring| ==> ring[j].at != at
    ensures Precedes(ring, t, at)
  {
    if ring[n - 1].at < at {
      t := n - 1;
    } else {
      t := PlaceExists(ring, at, n - 1);
    }
  }

  /** The test of the loop of free holds at that block and nowhere else. */
  predicate Stops(p: nat, next: nat, bp: nat) {
    (bp > p && bp < next) || (p >= next && (bp > p || bp < next))
  }

  lemma StopsThere(ring: seq<Block>, i: nat, t: nat, at: nat)
    requires Sorted(ring) && i < |ring| && Precedes(ring, t, at) && BASE < at
    requires forall j :: 0 <= j < |ring| ==> ring[j].at != at
    ensures Stops(ring[i].at, ring[Next(i, |ring|)].at, at) <==> i == t
  {
    if i < t { assert Below(ring[i], ring[t]) && Below(ring[i], ring[i + 1]); if i + 1 < t { assert Below(ring[i + 1], ring[t]); } }
    if i > t { assert Below(ring[t], ring[i]); if t + 1 < i { assert Below(ring[t + 1], ring[i]); } }
    if i > 0 { assert Below(ring[0], ring[i]); }
    if i + 1 < |ring| { assert Below(ring[i], ring[i + 1]); }
  }

  /** Freeing and carving write no header of another allocation. */
  lemma OtherHeaders(ring: seq<Block>, live: seq<Block>, brk: nat, i: nat, k: nat)
    requires Ordered(ring) && Apart(ring, live, brk) && i < |ring| && k < |live|
    ensures live[k].at != ring[i].at
    ensures forall l :: 0 <= l < |live| && l != k ==> live[l].at != live[k].at
  {
    assert Disjoint(ring[i], live[k]);
  }

  class Heap {
    var mem: Memory
    var freep: nat  // 0 is the null pointer
    var brk: nat    // the end of the memory from sbrk

    ghost var ring: seq<Block>
    ghost var live: seq<Block>
    ghost var obtained: nat

    /** One circular, ordered, coalesced list, clear of the allocations; together they are all that sbrk gave. */
    ghost predicate Valid()
      reads this
    {
      && BASE < brk
      && if freep == 0 then ring == [] && live == [] && obtained == 0
         else
           && Layout(ring, live, brk, obtained) && Linked(mem, ring) && Tagged(mem, live)
           && exists f :: 0 <= f < |ring| && ring[f].at == freep
    }

    constructor (brk: nat)
      requires BASE < brk
      ensures Valid() && freep == 0 && live == []
    {
      mem, freep, this.brk, ring, live, obtained := map[], 0, brk, [], [], 0;
    }

    /** The loop of free: the block behind which bp belongs, from freep onwards round the list. */
    method FindPlace(bp: nat) returns (p: nat, ghost t: nat)
      requires Valid() && freep != 0 && BASE < bp && forall j :: 0 <= j < |ring| ==> ring[j].at != bp
      ensures Precedes(ring, t, bp) && p == ring[t].at
    {
      t := PlaceExists(ring, bp, |ring|);
      ghost var i :| 0 <= i < |ring| && ring[i].at == freep;
      p := freep;
      assert LinkedAt(mem, ring, i);
      hide Apart, Tagged, Units, Below;
      while !(bp > p && bp < mem[p].ptr)
        invariant 0 <= i < |ring| && p == ring[i].at && LinkedAt(mem, ring, i)
        decreases if i <= t then t - i else |ring| - i + t
      {
        StopsThere(ring, i, t, bp);
        if p >= mem[p].ptr && (bp > p || bp < mem[p].ptr) { return; }
        p := mem[p].ptr;
        i := Next(i, |ring|);
        assert LinkedAt(mem, ring, i);
      }
      StopsThere(ring, i, t, bp);
    }

    /** The writes of free, once the place is known. */
    method LinkIn(p: nat, bp: nat)
      requires p in mem && bp in mem && mem[p].ptr in mem
      modifies this`mem
      ensures mem == FreeWrites(old(mem), p, bp)
    {
      if bp + mem[bp].size == mem[p].ptr {
        mem := mem[bp := Header(mem[mem[p].ptr].ptr, mem[bp].size + mem[mem[p].ptr].size)];
      } else {
        mem := mem[bp := Header(mem[p].ptr, mem[bp].size)];
      }
      if p + mem[p].size == bp {
        mem := mem[p := Header(mem[bp].ptr, mem[p].size + mem[bp].size)];
      } else {
        mem := mem[p := Header(bp, mem[p].size)];
      }
    }

    /** free of an allocation: its units join the list behind the block before it, and freep moves there. */
    method Free(ap: nat, ghost k: nat) returns (ghost t: nat)
      requires Valid() && k < |live| && ap == live[k].at + 1
      modifies this`mem, this`freep, this`ring, this`live
      ensures Valid() && freep != 0
      ensures Precedes(old(ring), t, old(live)[k].at) && freep == old(ring)[t].at
      ensures ring == Freed(old(ring), t, old(live)[k]) && live == Dropped(old(live), k)
    {
      hide Linked, Tagged, Freed, Dropped, Ordered, Apart, Units;
      var bp := ap - 1;
      LiveIsApart(ring, live, brk, obtained, k);
      var p;
      p, t := FindPlace(bp);
      FreeOk(mem, ring, live, brk, obtained, t, k);
      LinkIn(p, bp);
      freep := p;
      ring, live := Freed(ring, t, live[k]), Dropped(live, k);
    }

    /** morecore, when sbrk answers avail and other callers of sbrk have moved the break by gap since. */
    method Morecore(nu: nat, avail: bool, gap: nat) returns (r: nat, ghost t: nat)
      requires Valid() && freep != 0
      modifies this
      ensures Valid() && live == old(live) && freep != 0 && (r != 0 <==> avail)
      ensures !avail ==> ring == old(ring) && obtained == old(obtained) && brk == old(brk) && mem == old(mem) && freep == old(freep)
      ensures avail ==>
                && t < |ring| && r == freep == ring[t].at && !NoneFits(ring, nu)
                && obtained == old(obtained) + Max(nu, MIN_UNITS) && brk == old(brk) + gap + Max(nu, MIN_UNITS)
                && t < |old(ring)| && ring == Freed(old(ring), t, Block(old(brk) + gap, Max(nu, MIN_UNITS)))
    {
      hide Linked, Tagged, Freed, Ordered, Apart, Units, NoneFits;
      var units := nu;
      if units < MIN_UNITS { units := MIN_UNITS; }
      if !avail { return 0, 0; }
      var p := brk + gap;
      GrantOk(mem, ring, live, brk, obtained, gap, units);
      brk := p + units;
      mem := mem[p := Header(At(mem, p).ptr, units)];
      ghost var got := Block(p, units);
      live, obtained := live + [got], obtained + units;
      assert live[|live| - 1] == got;
      t := Free(p + 1, |live| - 1);
      assert live == old(live) by { assert Dropped(old(live) + [got], |old(live)|) == old(live); }
      FreedFits(old(ring), t, got, nu);
      FreedKeepsPlace(old(ring), t, got);
      r := freep;
    }

    /** The branch of malloc that takes n units from block i of the list. */
    method Take(prevp: nat, p: nat, n: nat, ghost i: nat) returns (ap: nat)
      requires Valid() && freep != 0 && n > 0 && 0 < i < |ring| && ring[i].size >= n
      requires p == ring[i].at && prevp == ring[i - 1].at
      modifies this`mem, this`freep, this`ring, this`live
      ensures Valid() && freep == prevp
      ensures ring == Carved(old(ring), i, n).0 && ap > 1 && live == old(live) + [Block(ap - 1, n)]
    {
      hide Linked, Tagged, Carved, Ordered, Apart, Units;
      TakeOk(mem, ring, live, brk, obtained, i, n);
      ghost var cut := Carved(ring, i, n);
      ghost var after := MallocWrites(mem, prevp, p, n);
      var q := p;
      if mem[p].size == n {
        mem := mem[prevp := Header(mem[p].ptr, mem[prevp].size)];
      } else {
        mem := mem[p := Header(mem[p].ptr, mem[p].size - n)];
        q := p + mem[p].size;
        mem := mem[q := Header(At(mem, q).ptr, n)];
      }
      assert mem == after;
      freep := prevp;
      ring, live := cut.0, live + [cut.1];
      return q + 1;
    }

    /** p->s.ptr, for the header of block i. */
    method NextOf(p: nat, ghost i: nat) returns (r: nat)
      requires Linked(mem, ring) && i < |ring| && p == ring[i].at
      ensures r == ring[Next(i, |ring|)].at
    {
      assert LinkedAt(mem, ring, i);
      return mem[p].ptr;
    }

    /** The first call of malloc sets up the list with base alone. */
    method Init()
      requires Valid() && freep == 0
      modifies this`mem, this`freep, this`ring
      ensures Valid() && freep == BASE && ring == [Block(BASE, 0)] && live == old(live) == []
    {
      mem := mem[BASE := Header(BASE, 0)];
      freep := BASE;
      ring := [Block(BASE, 0)];
      assert Units(ring) == 0 && LinkedAt(mem, ring, 0);
    }

    /** The list that the search of malloc walks. */
    ghost function Start(): seq<Block>
      reads this
    {
      if freep == 0 then [Block(BASE, 0)] else ring
    }

    /** malloc: the first block behind freep that is large enough, or one from sbrk if there is none; 0 if sbrk refuses.
        sbrk is asked at most once, so avail and gap describe its one answer.  Block i of list was taken, after d others. */
    method Malloc(nbytes: nat, avail: bool, gap: nat) returns (ap: nat, ghost list: seq<Block>, ghost f: nat, ghost d: nat)
      requires Valid() && nbytes < UINT && (avail ==> Max(Nunits(nbytes), MIN_UNITS) * HEADER_BYTES < UINT / 2)
      modifies this
      ensures Valid()
      ensures ap == 0 <==> NoneFits(old(Start()), Nunits(nbytes)) && !avail
      ensures ap == 0 ==> live == old(live) && ring == old(Start()) && obtained == old(obtained)
      ensures ap != 0 ==> ap > 1 && live == old(live) + [Block(ap - 1, Nunits(nbytes))]
      ensures ap != 0 ==>
                && f < |list| && d < |list| && TooSmall(list, f, d, Nunits(nbytes))
                && var i := Off(f, d, |list|);
                && i > 0 && list[i].size >= Nunits(nbytes) && ring == Carved(list, i, Nunits(nbytes)).0
                && freep == list[i - 1].at
      ensures ap != 0 && !NoneFits(old(Start()), Nunits(nbytes)) ==> list == old(Start()) && obtained == old(obtained)
      ensures ap != 0 && NoneFits(old(Start()), Nunits(nbytes)) ==>
                obtained == old(obtained) + Max(Nunits(nbytes), MIN_UNITS)
    {
      hide Linked, Tagged, Carved, Freed, Layout, NoneFits, TooSmall, Searching, Off, Next, Prev;
      var nunits := Nunits(nbytes);
      var prevp := freep;
      if prevp == 0 {
        Init();
        prevp := freep;
      }
      list := ring;
      f :| 0 <= f < |ring| && ring[f].at == freep;
      d := 0;
      var p := NextOf(prevp, f);
      SearchStart(list, f, nunits);
      ghost var grown := false;
      while true
        invariant Valid() && freep != 0 && live == old(live) && ring == list
        invariant Searching(list, f, d, nunits, freep, prevp, p) && d < |list|
        invariant !grown ==> list == old(Start()) && obtained == old(obtained)
        invariant grown ==> avail && !NoneFits(list, nunits) && NoneFits(old(Start()), nunits) &&
                            obtained == old(obtained) + Max(nunits, MIN_UNITS)
        decreases !grown, |list| - d
      {
        ghost var i := SearchAt(mem, list, live, brk, obtained, f, d, nunits, freep, prevp, p);
        if mem[p].size >= nunits {
          ap := Take(prevp, p, nunits, i);
          return;
        }
        if p == freep {
          p, f := Morecore(nunits, avail, gap);
          if p == 0 { return 0, list, f, d; }
          grown := true;
          list := ring;
          d := 0;
          prevp := p;
          p := NextOf(p, f);
          SearchStart(list, f, nunits);
        } else {
          d := d + 1;
          prevp := p;
          p := NextOf(p, i);
        }
      }
    }
  }

  /** Where the search of malloc stands: at block Off(f, d), after d blocks that were too small. */
  ghost predicate Searching(ring: seq<Block>, f: nat, d: nat, n: nat, freep: nat, prevp: nat, p: nat) {
    && f < |ring| && d < |ring| && ring[f].at == freep && TooSmall(ring, f, d, n)
    && p == ring[Off(f, d, |ring|)].at && prevp == ring[Prev(Off(f, d, |ring|), |ring|)].at
  }

  lemma SearchStart(ring: seq<Block>, f: nat, n: nat)
    requires f < |ring|
    ensures Searching(ring, f, 0, n, ring[f].at, ring[f].at, ring[Next(f, |ring|)].at)
  {
  }

  /** What one iteration finds: a block that fits, or the end of the round, or the next block to look at. */
  lemma SearchAt(mem: Memory, ring: seq<Block>, live: seq<Block>, brk: nat, obtained: nat,
                 f: nat, d: nat, n: nat, freep: nat, prevp: nat, p: nat) returns (i: nat)
    requires Layout(ring, live, brk, obtained) && Linked(mem, ring) && n > 0
    requires Searching(ring, f, d, n, freep, prevp, p)
    ensures f < |ring| && d < |ring| && i < |ring| && i == Off(f, d, |ring|) && p == ring[i].at && p in mem && mem[p].size == ring[i].size
    ensures mem[p].size >= n ==>
              i > 0 && prevp == ring[i - 1].at && !NoneFits(ring, n) && TooSmall(ring, f, d, n)
    ensures mem[p].size < n && p == freep ==> NoneFits(ring, n)
    ensures mem[p].size < n && p != freep ==>
              d + 1 < |ring| && Searching(ring, f, d + 1, n, freep, p, ring[Next(i, |ring|)].at)
  {
    i := Off(f, d, |ring|);
    SizeOf(mem, ring, i);
    BackAtStart(ring, f, d);
    if mem[p].size >= n {
      FitsHere(ring, i, n);
    } else {
      TooSmallStep(ring, f, d, n);
      if d + 1 == |ring| { OnceRound(ring, f, n); }
    }
  }

  lemma LiveIsApart(ring: seq<Block>, live: seq<Block>, brk: nat, obtained: nat, k: nat)
    requires Layout(ring, live, brk, obtained) && k < |live|
    ensures BASE < live[k].at && live[k].size > 0
    ensures forall j :: 0 <= j < |ring| ==> ring[j].at != live[k].at && Disjoint(ring[j], live[k])
  {
    forall j | 0 <= j < |ring| ensures ring[j].at != live[k].at { OtherHeaders(ring, live, brk, j, k); }
  }

  lemma FreeOk(mem: Memory, ring: seq<Block>, live: seq<Block>, brk: nat, obtained: nat, t: nat, k: nat)
    requires Layout(ring, live, brk, obtained) && Linked(mem, ring) && Tagged(mem, live)
    requires k < |live| && Precedes(ring, t, live[k].at)
    ensures ring[t].at in mem && live[k].at in mem && mem[ring[t].at].ptr in mem && ring[t].at > 0
    ensures var after, r := FreeWrites(mem, ring[t].at, live[k].at), Freed(ring, t, live[k]);
            && Layout(r, Dropped(live, k), brk, obtained) && Linked(after, r) && Tagged(after, Dropped(live, k))
            && t < |r| && r[t].at == ring[t].at
  {
    LiveIsApart(ring, live, brk, obtained, k);
    assert t > 0 ==> Below(ring[0], ring[t]);
    assert live[k].at in mem && mem[live[k].at].size == live[k].size;
    hide Linked, Tagged, Freed, Dropped, FreeWrites;
    FreedLayout(ring, live, brk, obtained, t, k);
    FreedLinked(mem, ring, t, live[k]);
    TaggedFreed(mem, ring, live, brk, t, k);
    FreedKeepsPlace(ring, t, live[k]);
  }

  lemma TaggedFreed(mem: Memory, ring: seq<Block>, live: seq<Block>, brk: nat, t: nat, k: nat)
    requires Ordered(ring) && Apart(ring, live, brk) && t < |ring| && k < |live| && Tagged(mem, live)
    requires ring[t].at in mem && live[k].at in mem && mem[ring[t].at].ptr in mem
    ensures Tagged(FreeWrites(mem, ring[t].at, live[k].at), Dropped(live, k))
  {
    var after, rest := FreeWrites(mem, ring[t].at, live[k].at), Dropped(live, k);
    forall l | 0 <= l < |rest| ensures rest[l].at in after && after[rest[l].at].size == rest[l].size {
      var o := if l < k then l else l + 1;
      OtherHeaders(ring, live, brk, t, o);
      assert live[o].at in mem && mem[live[o].at].size == live[o].size;
    }
  }

  lemma FreedKeepsPlace(ring: seq<Block>, t: nat, b: Block)
    requires t < |ring|
    ensures t < |Freed(ring, t, b)| && Freed(ring, t, b)[t].at == ring[t].at
  {
  }

  function Max(a: nat, b: nat): nat { if a < b then b else a }

  lemma GrantOk(mem: Memory, ring: seq<Block>, live: seq<Block>, brk: nat, obtained: nat, gap: nat, units: nat)
    requires Layout(ring, live, brk, obtained) && Linked(mem, ring) && Tagged(mem, live) && units > 0 && BASE < brk
    ensures var p := brk + gap; var after := mem[p := Header(At(mem, p).ptr, units)];
            && Layout(ring, live + [Block(p, units)], p + units, obtained + units)
            && Linked(after, ring) && Tagged(after, live + [Block(p, units)])
  {
    var p := brk + gap;
    var after, more := mem[p := Header(At(mem, p).ptr, units)], live + [Block(p, units)];
    UnitsAppend(live, [Block(p, units)]);
    OneUnits(Block(p, units), []);
    assert [Block(p, units)] + [] == [Block(p, units)];
    forall i | 0 <= i < |ring| ensures LinkedAt(after, ring, i) {
      assert LinkedAt(mem, ring, i);
    }
    forall k | 0 <= k < |more| ensures more[k].at in after && after[more[k].at].size == more[k].size {
      if k < |live| { assert live[k].at in mem && End(live[k]) <= brk; }
    }
  }

  lemma TakeOk(mem: Memory, ring: seq<Block>, live: seq<Block>, brk: nat, obtained: nat, i: nat, n: nat)
    requires Layout(ring, live, brk, obtained) && Linked(mem, ring) && Tagged(mem, live)
    requires n > 0 && 0 < i < |ring| && ring[i].size >= n
    ensures ring[i - 1].at in mem && ring[i].at in mem && mem[ring[i].at].size == ring[i].size && ring[i - 1].at > 0
    ensures var (r, b) := Carved(ring, i, n); var after := MallocWrites(mem, ring[i - 1].at, ring[i].at, n);
            && Layout(r, live + [b], brk, obtained) && Linked(after, r) && Tagged(after, live + [b])
            && i - 1 < |r| && r[i - 1].at == ring[i - 1].at && b == Block(End(ring[i]) - n, n) && b.at > BASE
  {
    var (r, b) := Carved(ring, i, n);
    assert Below(ring[0], ring[i]) && (i > 1 ==> Below(ring[0], ring[i - 1]));
    CarvedLayout(ring, live, brk, obtained, i, n);
    CarvedLinked(mem, ring, i, n);
    var after, more := MallocWrites(mem, ring[i - 1].at, ring[i].at, n), live + [b];
    forall k | 0 <= k < |more| ensures more[k].at in after && after[more[k].at].size == more[k].size {
      if k < |live| {
        assert live[k].at in mem && mem[live[k].at].size == live[k].size;
        OtherHeaders(ring, live, brk, i, k);
        OtherHeaders(ring, live, brk, i - 1, k);
        assert Disjoint(ring[i], live[k]);
      }
    }
  }

  lemma SizeOf(mem: Memory, ring: seq<Block>, i: nat)
    requires Linked(mem, ring) && i < |ring|
    ensures ring[i].at in mem && mem[ring[i].at].size == ring[i].size
  {
    assert LinkedAt(mem, ring, i);
  }

  lemma TooSmallStep(ring: seq<Block>, f: nat, d: nat, n: nat)
    requires f < |ring| && d < |ring| && TooSmall(ring, f, d, n) && ring[Off(f, d, |ring|)].size < n
    ensures TooSmall(ring, f, d + 1, n)
  {
  }

  lemma FitsHere(ring: seq<Block>, i: nat, n: nat)
    requires Ordered(ring) && i < |ring| && ring[i].size >= n > 0
    ensures i > 0 && !NoneFits(ring, n)
  {
  }

  /** The search is back at freep exactly when it has gone all the way round. */
  lemma BackAtStart(ring: seq<Block>, f: nat, d: nat)
    requires Sorted(ring) && f < |ring| && d < |ring|
    ensures ring[Off(f, d, |ring|)].at == ring[f].at <==> d + 1 == |ring|
    ensures d + 1 < |ring| ==>
              && Off(f, d + 1, |ring|) == Next(Off(f, d, |ring|), |ring|)
              && Prev(Off(f, d + 1, |ring|), |ring|) == Off(f, d, |ring|)
  {
    var i := Off(f, d, |ring|);
    if i < f { assert Below(ring[i], ring[f]); }
    if f < i { assert Below(ring[f], ring[i]); }
  }
}
