/**
 Demand paging of one process: the page table entries, the two metadata tables, the
 frames and the swap file as values, and what it means that they fit together.
 */
module PagingModel {
  import opened Basics

  const MAX_PYSC_PAGES: nat := 15
  const MAX_TOTAL_PAGES: nat := 30
  const DISC_SLOTS: nat := MAX_TOTAL_PAGES - MAX_PYSC_PAGES
  const INT_MAX: int := 0x7fff_ffff

  function ZeroPage(): Page { seq(4096, _ => 0) }

  /** What kfree fills a page with. */
  function JunkPage(): Page { seq(4096, _ => 1) }

  // ---- page table entries ----

  const PTE_P: bv32 := 0x001
  const PTE_W: bv32 := 0x002
  const PTE_U: bv32 := 0x004
  const PTE_PG: bv32 := 0x200

  /** A page of RAM, named by its physical address. */
  datatype Frame = Frame(addr: bv32)

  function PteAddr(p: bv32): bv32 { p & 0xfffff000 }

  predicate Present(p: bv32) { p & PTE_P != 0 }
  predicate PagedOut(p: bv32) { p & PTE_PG != 0 }
  predicate IsFrame(f: bv32) { f != 0 && f & 0xfff == 0 }

  /** What the processor asks of an entry before it lets a user instruction through. */
  predicate Usable(p: bv32) { p & (PTE_P | PTE_W | PTE_U) == PTE_P | PTE_W | PTE_U }

  /** In RAM, or in the swap file. */
  predicate InRam(p: bv32) { Usable(p) && !PagedOut(p) && IsFrame(PteAddr(p)) }
  predicate InSwap(p: bv32) { !Present(p) && PagedOut(p) && PteAddr(p) == 0 }

  /** mappages */
  function MapPte(f: bv32): bv32 { f | (PTE_W | PTE_U) | PTE_P }

  /** The three updates of clearPagePhyMem; the last ands the entry with its own flags. */
  function OutPte(p: bv32): bv32 {
    var q := (p | PTE_PG) & 0xfffffffe;
    q & (q & 0xfff)
  }

  /** The three updates of retrievePage. */
  function InPte(p: bv32, f: bv32): bv32 {
    ((p | (PTE_P | PTE_W | PTE_U)) & 0xfffffdff) | f
  }

  lemma MapPteOk(f: bv32)
    requires IsFrame(f)
    ensures InRam(MapPte(f)) && PteAddr(MapPte(f)) == f
  {
  }

  lemma InPteOk(p: bv32, f: bv32)
    requires InSwap(p) && IsFrame(f)
    ensures InRam(InPte(p, f)) && PteAddr(InPte(p, f)) == f
  {
  }

  // ---- the state of one process ----

  /** struct pageData, without the page directory: there is one. */
  datatype PageData = PageData(isUsed: bool, virtualAddress: nat, timer: int, ageCounter: bv32, isImportant: int)

  /** pagesInPhysicalMemory, pagesInDisc, timer, the entries of the page directory, RAM, kalloc's list, the swap file. */
  datatype Mem = Mem(phys: seq<PageData>, disc: seq<PageData>, timer: int, pte: map<nat, bv32>,
                     frames: map<Frame, Page>, free: seq<Frame>, swap: seq<Page>)

  function Base(p: nat): nat { p * PGSIZE }
  function Vpn(va: nat): nat { va / PGSIZE }

  lemma VpnBase(p: nat)
    ensures Vpn(Base(p)) == p
  {
  }

  function Entry(m: Mem, p: nat): bv32 { if p in m.pte then m.pte[p] else 0 }
  function FrameOf(m: Mem, p: nat): Frame { Frame(PteAddr(Entry(m, p))) }
  function FrameAt(m: Mem, f: Frame): Page { if f in m.frames then m.frames[f] else ZeroPage() }
  function SwapAt(m: Mem, s: nat): Page { if s < |m.swap| then m.swap[s] else ZeroPage() }

  // ---- where each page is ----

  /** A page is in a slot of one of the tables, or mapped in RAM and in neither table. */
  datatype Loc = Ram(slot: nat) | Disc(slot: nat) | Loose

  ghost predicate Placed(m: Mem, l: Loc, p: nat) {
    match l
    case Ram(i) => i < |m.phys| && m.phys[i].isUsed && m.phys[i].virtualAddress == Base(p)
    case Disc(i) => i < |m.disc| && m.disc[i].isUsed && m.disc[i].virtualAddress == Base(p)
    case Loose => true
  }

  /** The page table entry of a page agrees with the table the page is in. */
  ghost predicate Entered(m: Mem, l: Loc, p: nat) {
    if l.Disc? then InSwap(Entry(m, p)) && l.slot < |m.swap|
    else InRam(Entry(m, p)) && FrameOf(m, p) in m.frames && FrameOf(m, p) !in m.free
  }

  ghost predicate LocIs(loc: seq<Loc>, va: nat, l: Loc) {
    exists p :: 0 <= p < |loc| && va == Base(p) && loc[p] == l
  }

  /** Each used slot is where the page it names is. */
  ghost predicate Backed(m: Mem, loc: seq<Loc>) {
    && (forall i :: 0 <= i < |m.phys| && m.phys[i].isUsed ==> LocIs(loc, m.phys[i].virtualAddress, Ram(i)))
    && (forall i :: 0 <= i < |m.disc| && m.disc[i].isUsed ==> LocIs(loc, m.disc[i].virtualAddress, Disc(i)))
  }

  /** No slot before a used slot of the disc table, used or not, carries its address. */
  ghost predicate FirstCarrier(m: Mem) {
    forall i, j :: 0 <= j < i < |m.disc| && m.disc[i].isUsed ==> m.disc[j].virtualAddress != m.disc[i].virtualAddress
  }

  ghost predicate OwnFrames(m: Mem, loc: seq<Loc>) {
    forall p, q :: 0 <= p < q < |loc| && !loc[p].Disc? && !loc[q].Disc? ==> FrameOf(m, p) != FrameOf(m, q)
  }

  ghost predicate FreeList(m: Mem) {
    && (forall k :: 0 <= k < |m.free| ==> IsFrame(m.free[k].addr) && m.free[k] in m.frames)
    && (forall k, l :: 0 <= k < l < |m.free| ==> m.free[k] != m.free[l])
  }

  /** queue holds the used slots of the RAM table in the order in which their pages were loaded. */
  ghost predicate Fifo(phys: seq<PageData>, timer: int, queue: seq<nat>) {
    && (forall k :: 0 <= k < |queue| ==> queue[k] < |phys| && phys[queue[k]].isUsed && 0 <= phys[queue[k]].timer < timer)
    && (forall k, l :: 0 <= k < l < |queue| ==> phys[queue[k]].timer < phys[queue[l]].timer)
    && (forall i :: 0 <= i < |phys| && phys[i].isUsed ==> i in queue)
  }

  /** The invariant of the whole: every page is in exactly one place, and both tables, the entries, RAM and
      the swap file agree about which. */
  ghost predicate Ok(m: Mem, loc: seq<Loc>, queue: seq<nat>) {
    && |m.phys| == MAX_PYSC_PAGES && |m.disc| == DISC_SLOTS && |m.swap| <= DISC_SLOTS && m.timer <= INT_MAX
    && (forall p: nat :: p in m.pte <==> p < |loc|)
    && (forall p :: 0 <= p < |loc| ==> Placed(m, loc[p], p) && Entered(m, loc[p], p))
    && Backed(m, loc) && FirstCarrier(m) && OwnFrames(m, loc) && FreeList(m)
    && Fifo(m.phys, m.timer, queue)
  }

  /** What page p holds, wherever it is. */
  ghost function Content(m: Mem, loc: seq<Loc>, p: nat): Page
    requires p < |loc|
  {
    if loc[p].Disc? then SwapAt(m, loc[p].slot) else FrameAt(m, FrameOf(m, p))
  }

  ghost function Contents(m: Mem, loc: seq<Loc>): (c: seq<Page>)
    ensures |c| == |loc|
  {
    seq(|loc|, p requires 0 <= p < |loc| => Content(m, loc, p))
  }

  // ---- the steps ----

  /** A frame that kalloc has handed out and that maps no page yet. */
  ghost predicate Held(m: Mem, loc: seq<Loc>, f: Frame) {
    && IsFrame(f.addr) && f in m.frames && f !in m.free
    && forall p :: 0 <= p < |loc| && !loc[p].Disc? ==> FrameOf(m, p) != f
  }

  /** kalloc and memset */
  function Alloc(m: Mem): Mem
    requires |m.free| > 0
  {
    m.(free := m.free[1..], frames := m.frames[m.free[0] := ZeroPage()])
  }

  lemma AllocContent(m: Mem, loc: seq<Loc>, queue: seq<nat>, p: nat)
    requires Ok(m, loc, queue) && |m.free| > 0 && p < |loc|
    ensures Content(Alloc(m), loc, p) == Content(m, loc, p)
  {
    assert Entered(m, loc[p], p);
    assert m.free[0] in m.free;
    if !loc[p].Disc? { assert FrameOf(Alloc(m), p) == FrameOf(m, p) != m.free[0]; }
  }

  lemma AllocOk(m: Mem, loc: seq<Loc>, queue: seq<nat>)
    requires Ok(m, loc, queue) && |m.free| > 0
    ensures Ok(Alloc(m), loc, queue) && Held(Alloc(m), loc, m.free[0])
    ensures Contents(Alloc(m), loc) == Contents(m, loc)
  {
    forall p | 0 <= p < |loc| ensures Content(Alloc(m), loc, p) == Content(m, loc, p) { AllocContent(m, loc, queue, p); }
    assert Contents(Alloc(m), loc) == Contents(m, loc);
  }

  /** swapFile after a write to slot s. */
  function Swapped(swap: seq<Page>, s: nat, data: Page): seq<Page>
    requires s <= |swap|
  {
    if s < |swap| then swap[s := data] else swap + [data]
  }

  /** The page of RAM slot i goes to slot s of the swap file, whose table entry becomes e; clearPagePhyMem. */
  function Evict(m: Mem, i: nat, s: nat, e: PageData): Mem
    requires i < |m.phys| && s < |m.disc| && s <= |m.swap|
  {
    var p := Vpn(m.phys[i].virtualAddress);
    var f := FrameOf(m, p);
    m.(swap := Swapped(m.swap, s, FrameAt(m, f)), disc := m.disc[s := e], phys := m.phys[i := m.phys[i].(isUsed := false)],
       frames := m.frames[f := JunkPage()], free := [f] + m.free, pte := m.pte[p := OutPte(Entry(m, p))])
  }

  /** What EvictOk assumes: the slot is the first unused one, and e describes the page at the head of the queue. */
  ghost predicate Evictable(m: Mem, loc: seq<Loc>, queue: seq<nat>, s: nat, e: PageData) {
    && Ok(m, loc, queue) && |queue| > 0 && s < |m.disc| && !m.disc[s].isUsed && s <= |m.swap|
    && (forall j :: 0 <= j < s ==> m.disc[j].isUsed)
    && e.isUsed && e.virtualAddress == m.phys[queue[0]].virtualAddress
  }

  /** The first unused slot is at most one past the end of the swap file, so writing it never fails. */
  lemma SlotWritable(m: Mem, loc: seq<Loc>, queue: seq<nat>, s: nat)
    requires Ok(m, loc, queue) && s < |m.disc| && forall j :: 0 <= j < s ==> m.disc[j].isUsed
    ensures s <= |m.swap|
  {
    if s > 0 {
      assert LocIs(loc, m.disc[s - 1].virtualAddress, Disc(s - 1));
      var p :| 0 <= p < |loc| && loc[p] == Disc(s - 1);
      assert Entered(m, loc[p], p);
    }
  }

  lemma Victim(m: Mem, loc: seq<Loc>, queue: seq<nat>)
    requires Ok(m, loc, queue) && |queue| > 0
    ensures var p := Vpn(m.phys[queue[0]].virtualAddress);
            p < |loc| && loc[p] == Ram(queue[0]) && m.phys[queue[0]].virtualAddress == Base(p)
  {
    assert LocIs(loc, m.phys[queue[0]].virtualAddress, Ram(queue[0]));
  }

  lemma EvictContent(m: Mem, loc: seq<Loc>, queue: seq<nat>, s: nat, e: PageData, q: nat)
    requires Evictable(m, loc, queue, s, e) && q < |loc|
    ensures var p := Vpn(e.virtualAddress);
            p < |loc| && Content(Evict(m, queue[0], s, e), loc[p := Disc(s)], q) == Content(m, loc, q)
  {
    Victim(m, loc, queue);
    var p := Vpn(e.virtualAddress);
    assert Entered(m, loc[p], p) && Entered(m, loc[q], q) && Placed(m, loc[q], q);
    if p != q && !loc[q].Disc? {
      assert FrameOf(m, if p < q then p else q) != FrameOf(m, if p < q then q else p);
    }
  }

  /** The tables after an eviction: the slot taken is the first one that carries the address. */
  lemma EvictPlaces(m: Mem, loc: seq<Loc>, queue: seq<nat>, s: nat, e: PageData)
    requires Evictable(m, loc, queue, s, e)
    ensures var p, n := Vpn(e.virtualAddress), Evict(m, queue[0], s, e);
            && p < |loc|
            && var loc' := loc[p := Disc(s)];
            && (forall q :: 0 <= q < |loc'| ==> Placed(n, loc'[q], q))
            && Backed(n, loc') && FirstCarrier(n) && Fifo(n.phys, n.timer, queue[1..])
  {
    Victim(m, loc, queue);
    var p, n := Vpn(e.virtualAddress), Evict(m, queue[0], s, e);
    forall i | 0 <= i < |n.disc| && n.disc[i].isUsed ensures LocIs(loc[p := Disc(s)], n.disc[i].virtualAddress, Disc(i)) {
      if i == s { assert loc[p := Disc(s)][p] == Disc(s); }
    }
  }

  lemma EvictEntries(m: Mem, loc: seq<Loc>, queue: seq<nat>, s: nat, e: PageData)
    requires Evictable(m, loc, queue, s, e)
    ensures var p, n := Vpn(e.virtualAddress), Evict(m, queue[0], s, e);
            && p < |loc|
            && var loc' := loc[p := Disc(s)];
            && (forall q :: 0 <= q < |loc'| ==> Entered(n, loc'[q], q))
            && OwnFrames(n, loc') && FreeList(n)
  {
    Victim(m, loc, queue);
    hide Backed, FirstCarrier, Fifo;
  }

  lemma EvictKeepsHeld(m: Mem, loc: seq<Loc>, queue: seq<nat>, s: nat, e: PageData, f: Frame)
    requires Evictable(m, loc, queue, s, e) && Held(m, loc, f)
    ensures var p := Vpn(e.virtualAddress); p < |loc| && Held(Evict(m, queue[0], s, e), loc[p := Disc(s)], f)
    ensures FrameAt(Evict(m, queue[0], s, e), f) == FrameAt(m, f)
  {
    Victim(m, loc, queue);
    hide Backed, FirstCarrier, Fifo;
  }

  lemma EvictOk(m: Mem, loc: seq<Loc>, queue: seq<nat>, s: nat, e: PageData)
    requires Evictable(m, loc, queue, s, e)
    ensures var p := Vpn(e.virtualAddress);
            && p < |loc| && loc[p] == Ram(queue[0])
            && Ok(Evict(m, queue[0], s, e), loc[p := Disc(s)], queue[1..])
            && Contents(Evict(m, queue[0], s, e), loc[p := Disc(s)]) == Contents(m, loc)
  {
    Victim(m, loc, queue);
    EvictPlaces(m, loc, queue, s, e);
    EvictEntries(m, loc, queue, s, e);
    hide Backed, FirstCarrier, Fifo, OwnFrames, FreeList, Placed, Entered, Content;
    var p := Vpn(e.virtualAddress);
    var n, loc' := Evict(m, queue[0], s, e), loc[p := Disc(s)];
    forall q | 0 <= q < |loc| ensures Content(n, loc', q) == Content(m, loc, q) { EvictContent(m, loc, queue, s, e, q); }
    assert Contents(n, loc') == Contents(m, loc);
  }

  /** Page p comes back from slot s of the swap file into frame f, and takes slot i of the RAM table. */
  function PageIn(m: Mem, p: nat, f: Frame, i: nat, s: nat): Mem
    requires i < |m.phys| && s < |m.disc|
  {
    m.(pte := m.pte[p := InPte(Entry(m, p), f.addr)], frames := m.frames[f := SwapAt(m, s)],
       phys := m.phys[i := m.disc[s].(timer := m.timer)], disc := m.disc[s := m.disc[s].(isUsed := false)],
       timer := m.timer + 1)
  }

  ghost predicate CanPageIn(m: Mem, loc: seq<Loc>, queue: seq<nat>, p: nat, f: Frame, i: nat, s: nat) {
    && Ok(m, loc, queue) && Held(m, loc, f) && p < |loc| && loc[p] == Disc(s)
    && i < |m.phys| && !m.phys[i].isUsed && 0 <= m.timer < INT_MAX
  }

  lemma PageInPlaces(m: Mem, loc: seq<Loc>, queue: seq<nat>, p: nat, f: Frame, i: nat, s: nat)
    requires CanPageIn(m, loc, queue, p, f, i, s)
    ensures s < |m.disc|
    ensures var n, loc' := PageIn(m, p, f, i, s), loc[p := Ram(i)];
            && (forall q :: 0 <= q < |loc| ==> Placed(n, loc'[q], q))
            && Backed(n, loc') && FirstCarrier(n) && Fifo(n.phys, n.timer, queue + [i])
  {
    assert Placed(m, loc[p], p);
    var n, loc' := PageIn(m, p, f, i, s), loc[p := Ram(i)];
    forall k | 0 <= k < |n.phys| && n.phys[k].isUsed ensures LocIs(loc', n.phys[k].virtualAddress, Ram(k)) {
      if k == i { assert loc'[p] == Ram(i); }
    }
    forall k | 0 <= k < |n.phys| && n.phys[k].isUsed ensures k in queue + [i] {
      if k == i { assert (queue + [i])[|queue|] == i; } else { assert k in queue; }
    }
  }

  lemma PageInEntries(m: Mem, loc: seq<Loc>, queue: seq<nat>, p: nat, f: Frame, i: nat, s: nat)
    requires CanPageIn(m, loc, queue, p, f, i, s)
    ensures s < |m.disc|
    ensures var n, loc' := PageIn(m, p, f, i, s), loc[p := Ram(i)];
            && (forall q :: 0 <= q < |loc| ==> Entered(n, loc'[q], q)) && OwnFrames(n, loc') && FreeList(n)
            && Contents(n, loc') == Contents(m, loc)
  {
    assert Placed(m, loc[p], p) && Entered(m, loc[p], p);
    InPteOk(Entry(m, p), f.addr);
    hide Backed, FirstCarrier, Fifo;
    var n, loc' := PageIn(m, p, f, i, s), loc[p := Ram(i)];
    forall q | 0 <= q < |loc| ensures Content(n, loc', q) == Content(m, loc, q) {
      assert Entered(m, loc[q], q);
    }
    assert Contents(n, loc') == Contents(m, loc);
  }

  lemma PageInOk(m: Mem, loc: seq<Loc>, queue: seq<nat>, p: nat, f: Frame, i: nat, s: nat)
    requires CanPageIn(m, loc, queue, p, f, i, s)
    ensures s < |m.disc| && Ok(PageIn(m, p, f, i, s), loc[p := Ram(i)], queue + [i])
    ensures Contents(PageIn(m, p, f, i, s), loc[p := Ram(i)]) == Contents(m, loc)
  {
    PageInPlaces(m, loc, queue, p, f, i, s);
    PageInEntries(m, loc, queue, p, f, i, s);
    hide Backed, FirstCarrier, Fifo, OwnFrames, FreeList, Placed, Entered, Contents;
  }

  /** The search of retrievePage ignores isUsed, and still the first slot with the address is the live one. */
  lemma FirstMatch(m: Mem, loc: seq<Loc>, queue: seq<nat>, p: nat, i: nat)
    requires Ok(m, loc, queue) && p < |loc| && loc[p].Disc?
    requires i < |m.disc| && m.disc[i].virtualAddress == Base(p)
    requires forall j :: 0 <= j < i ==> m.disc[j].virtualAddress != Base(p)
    ensures loc[p] == Disc(i)
  {
    assert Placed(m, loc[p], p);
  }

  /** mappages of the next page. */
  function MapNext(m: Mem, p: nat, f: Frame): Mem { m.(pte := m.pte[p := MapPte(f.addr)]) }

  lemma MapNextOk(m: Mem, loc: seq<Loc>, queue: seq<nat>, f: Frame)
    requires Ok(m, loc, queue) && Held(m, loc, f)
    ensures Ok(MapNext(m, |loc|, f), loc + [Loose], queue)
    ensures Contents(MapNext(m, |loc|, f), loc + [Loose]) == Contents(m, loc) + [FrameAt(m, f)]
  {
    MapPteOk(f.addr);
    var n, loc' := MapNext(m, |loc|, f), loc + [Loose];
    forall q | 0 <= q < |loc| ensures Content(n, loc', q) == Content(m, loc, q) {
      assert Entered(m, loc[q], q);
    }
    assert Contents(n, loc') == Contents(m, loc) + [FrameAt(m, f)];
  }

  /** The entry that updatePhysicalPageMetaData writes. */
  function Track(m: Mem, p: nat, i: nat, important: int): Mem
    requires i < |m.phys|
  {
    m.(phys := m.phys[i := PageData(true, Base(p), m.timer, 0, important)], timer := m.timer + 1)
  }

  lemma TrackOk(m: Mem, loc: seq<Loc>, queue: seq<nat>, p: nat, i: nat, important: int)
    requires Ok(m, loc, queue) && p < |loc| && loc[p] == Loose
    requires i < |m.phys| && !m.phys[i].isUsed && 0 <= m.timer < INT_MAX
    ensures Ok(Track(m, p, i, important), loc[p := Ram(i)], queue + [i])
    ensures Contents(Track(m, p, i, important), loc[p := Ram(i)]) == Contents(m, loc)
  {
    var n, loc' := Track(m, p, i, important), loc[p := Ram(i)];
    forall k | 0 <= k < |n.phys| && n.phys[k].isUsed ensures LocIs(loc', n.phys[k].virtualAddress, Ram(k)) {
      if k == i { assert loc'[p] == Ram(i); }
    }
    forall k | 0 <= k < |n.phys| && n.phys[k].isUsed ensures k in queue + [i] {
      if k == i { assert (queue + [i])[|queue|] == i; } else { assert k in queue; }
    }
    assert Contents(n, loc') == Contents(m, loc);
  }

  /** A user instruction writes byte b at offset o of page p. */
  function Poke(m: Mem, p: nat, o: nat, b: byte): Mem
    requires o < PGSIZE
  {
    m.(frames := m.frames[FrameOf(m, p) := FrameAt(m, FrameOf(m, p))[o := b]])
  }

  lemma PokeOk(m: Mem, loc: seq<Loc>, queue: seq<nat>, p: nat, o: nat, b: byte)
    requires Ok(m, loc, queue) && p < |loc| && !loc[p].Disc? && o < PGSIZE
    ensures Ok(Poke(m, p, o, b), loc, queue)
    ensures Contents(Poke(m, p, o, b), loc) == Contents(m, loc)[p := Contents(m, loc)[p][o := b]]
  {
    var n := Poke(m, p, o, b);
    forall q | 0 <= q < |loc| && q != p ensures Content(n, loc, q) == Content(m, loc, q) {
      assert Entered(m, loc[q], q);
      if !loc[q].Disc? { assert FrameOf(m, if p < q then p else q) != FrameOf(m, if p < q then q else p); }
    }
  }

  /** What the entry of page p tells the processor and the trap. */
  lemma EntryTells(m: Mem, loc: seq<Loc>, queue: seq<nat>, p: nat)
    requires Ok(m, loc, queue)
    ensures p in m.pte <==> p < |loc|
    ensures p < |loc| ==> (Usable(m.pte[p]) <==> !loc[p].Disc?) && (PagedOut(m.pte[p]) <==> loc[p].Disc?)
    ensures p < |loc| && !loc[p].Disc? ==> FrameOf(m, p) in m.frames
  {
    if p < |loc| { assert Entered(m, loc[p], p); }
  }

  // ---- how many pages fit ----

  lemma {:induction false} Pigeonhole(s: seq<nat>, n: nat)
    requires forall i :: 0 <= i < |s| ==> s[i] < n
    requires forall i, j :: 0 <= i < j < |s| ==> s[i] != s[j]
    ensures |s| <= n
  {
    if |s| == 0 {
    } else {
      assert s[0] < n;
      if k :| 0 <= k < |s| && s[k] == n - 1 {
        Pigeonhole(s[..k] + s[k + 1..], n - 1);
      } else {
        Pigeonhole(s, n - 1);
      }
    }
  }

  ghost predicate AllUsed(table: seq<PageData>) { forall i :: 0 <= i < |table| ==> table[i].isUsed }

  ghost predicate Full(m: Mem) { AllUsed(m.phys) && AllUsed(m.disc) }

  /** allocuvm leaves a page out of both tables only when no slot is left. */
  ghost predicate Tight(m: Mem, loc: seq<Loc>) { Loose in loc ==> Full(m) }

  /** The same pages are in neither table. */
  ghost predicate SameLoose(loc: seq<Loc>, after: seq<Loc>) {
    |loc| == |after| && forall p :: 0 <= p < |loc| ==> (loc[p] == Loose <==> after[p] == Loose)
  }

  lemma SameLooseTight(loc: seq<Loc>, after: seq<Loc>)
    requires SameLoose(loc, after)
    ensures |loc| == |after| && (Loose in loc <==> Loose in after)
  {
    if Loose in after {
      var p :| 0 <= p < |after| && after[p] == Loose;
      assert loc[p] == Loose;
    }
    if Loose in loc {
      var p :| 0 <= p < |loc| && loc[p] == Loose;
      assert after[p] == Loose;
    }
  }

  lemma LastTracked(loc: seq<Loc>, now: seq<Loc>, l: Loc)
    requires SameLoose(loc, now) && |loc| > 0 && l != Loose && Loose in now[|loc| - 1 := l]
    ensures Loose in loc[..|loc| - 1]
  {
    var after := now[|loc| - 1 := l];
    var p :| 0 <= p < |after| && after[p] == Loose;
    assert loc[..|loc| - 1][p] == Loose;
  }

  lemma SameLooseUpdate(loc: seq<Loc>, now: seq<Loc>, p: nat, l: Loc)
    requires SameLoose(loc, now) && p < |now| && now[p] != Loose && l != Loose
    ensures SameLoose(loc, now[p := l])
  {
  }

  lemma QueueFits(m: Mem, loc: seq<Loc>, queue: seq<nat>)
    requires Ok(m, loc, queue)
    ensures |queue| <= MAX_PYSC_PAGES
  {
    Pigeonhole(queue, |m.phys|);
  }

  /** The address in slot k of the two tables taken together. */
  function SlotPage(m: Mem, k: nat): nat
    requires k < |m.phys| + |m.disc|
  {
    Vpn(if k < |m.phys| then m.phys[k].virtualAddress else m.disc[k - |m.phys|].virtualAddress)
  }

  function SlotLoc(m: Mem, k: nat): Loc { if k < |m.phys| then Ram(k) else Disc(k - |m.phys|) }

  lemma SomeVictim(m: Mem, loc: seq<Loc>, queue: seq<nat>)
    requires Ok(m, loc, queue) && AllUsed(m.phys)
    ensures queue != []
  {
    assert m.phys[0].isUsed;
    assert 0 in queue;
  }

  lemma FullHolds(m: Mem, loc: seq<Loc>, queue: seq<nat>)
    requires Ok(m, loc, queue) && Full(m)
    ensures |loc| >= MAX_TOTAL_PAGES
  {
    var s := seq<nat>(MAX_TOTAL_PAGES, k requires 0 <= k < MAX_TOTAL_PAGES => SlotPage(m, k));
    forall k | 0 <= k < MAX_TOTAL_PAGES ensures s[k] < |loc| && loc[s[k]] == SlotLoc(m, k) {
      if k < |m.phys| {
        assert LocIs(loc, m.phys[k].virtualAddress, Ram(k));
      } else {
        assert LocIs(loc, m.disc[k - |m.phys|].virtualAddress, Disc(k - |m.phys|));
      }
    }
    forall i, j | 0 <= i < j < |s| ensures s[i] != s[j] { assert SlotLoc(m, i) != SlotLoc(m, j); }
    Pigeonhole(s, |loc|);
  }

  /** The number of a slot among all thirty; those after slot e move down by one. */
  function Squeezed(l: Loc, e: nat): nat {
    var c := match l case Ram(i) => i case Disc(i) => MAX_PYSC_PAGES + i case Loose => MAX_TOTAL_PAGES;
    if c > e then c - 1 else c
  }

  function SlotUsed(m: Mem, k: nat): bool
    requires k < |m.phys| + |m.disc|
  {
    if k < |m.phys| then m.phys[k].isUsed else m.disc[k - |m.phys|].isUsed
  }

  lemma RoomHolds(m: Mem, loc: seq<Loc>, queue: seq<nat>, e: nat)
    requires Ok(m, loc, queue) && Loose !in loc && e < MAX_TOTAL_PAGES && !SlotUsed(m, e)
    ensures |loc| < MAX_TOTAL_PAGES
  {
    var s := seq<nat>(|loc|, p requires 0 <= p < |loc| => Squeezed(loc[p], e));
    forall p | 0 <= p < |loc| ensures s[p] < MAX_TOTAL_PAGES - 1 && loc[p] != SlotLoc(m, e) && loc[p] != Loose {
      assert Placed(m, loc[p], p);
      assert loc[p] in loc;
    }
    forall p, q | 0 <= p < q < |loc| ensures s[p] != s[q] {
      assert Placed(m, loc[p], p) && Placed(m, loc[q], q);
    }
    Pigeonhole(s, MAX_TOTAL_PAGES - 1);
  }

  /** A process has used up its slots exactly when it has MAX_TOTAL_PAGES pages. */
  lemma FullExactly(m: Mem, loc: seq<Loc>, queue: seq<nat>)
    requires Ok(m, loc, queue) && Tight(m, loc)
    ensures Full(m) <==> |loc| >= MAX_TOTAL_PAGES
  {
    if Full(m) {
      FullHolds(m, loc, queue);
    } else if i :| 0 <= i < |m.phys| && !m.phys[i].isUsed {
      RoomHolds(m, loc, queue, i);
    } else {
      var i :| 0 <= i < |m.disc| && !m.disc[i].isUsed;
      RoomHolds(m, loc, queue, |m.phys| + i);
    }
  }
}
