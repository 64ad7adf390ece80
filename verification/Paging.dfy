/**
 Demand paging with a swap file: allocuvm, reallocatePageInDisk, retrievePage and the page
 fault trap of one process, and the proof that a program cannot tell them from flat memory.
 */
module Paging {
  import opened Basics
  import opened PagingModel
  import opened FlatMemory

  class Process {
    const phys: array<PageData>
    const disc: array<PageData>
    var timer: int
    var sz: nat
    var pte: map<nat, bv32>
    var frames: map<Frame, Page>
    var free: seq<Frame>
    var swap: seq<Page>

    ghost var loc: seq<Loc>
    ghost var queue: seq<nat>

    ghost function M(): Mem
      reads this, phys, disc
    {
      Mem(phys[..], disc[..], timer, pte, frames, free, swap)
    }

    ghost predicate Valid()
      reads this, phys, disc
    {
      && phys != disc && phys.Length == MAX_PYSC_PAGES && disc.Length == DISC_SLOTS && 0 <= timer
      && Ok(M(), loc, queue)
    }

    /** allocproc: an empty address space, every slot unused; the slots' other fields hold anything. */
    constructor (frames: map<Frame, Page>, free: seq<Frame>, stale: PageData)
      requires forall k :: 0 <= k < |free| ==> IsFrame(free[k].addr) && free[k] in frames
      requires forall k, l :: 0 <= k < l < |free| ==> free[k] != free[l]
      ensures Valid() && fresh(phys) && fresh(disc)
      ensures loc == [] && queue == [] && timer == 0 && sz == 0 && this.free == free && Tight(M(), loc)
    {
      phys := new PageData[MAX_PYSC_PAGES](_ => stale.(isUsed := false));
      disc := new PageData[DISC_SLOTS](_ => stale.(isUsed := false));
      timer, sz, pte, this.frames, this.free, swap, loc, queue := 0, 0, map[], frames, free, [], [], [];
    }

    /** The loops that look for an unused slot; -1 if there is none. */
    method FindUnused(table: array<PageData>) returns (r: int)
      ensures r == -1 <==> AllUsed(table[..])
      ensures r != -1 ==> 0 <= r < table.Length && !table[r].isUsed && forall j :: 0 <= j < r ==> table[j].isUsed
    {
      for i := 0 to table.Length
        invariant forall j :: 0 <= j < i ==> table[j].isUsed
      {
        if !table[i].isUsed { return i; }
      }
      return -1;
    }

    /** getReplacementPageIndexFIFO, with OPTIMIZATION 0: the used slot with the least timer. */
    method ReplacementFifo() returns (r: int)
      requires Valid()
      ensures r == if queue == [] then -1 else queue[0]
    {
      var minT := INT_MAX;
      r := -1;
      for i := 0 to phys.Length
        invariant r == -1 ==> minT == INT_MAX && forall j :: 0 <= j < i ==> !phys[j].isUsed
        invariant r != -1 ==> 0 <= r < i && phys[r].isUsed && minT == phys[r].timer
        invariant r != -1 ==> forall j :: 0 <= j < i && phys[j].isUsed ==> minT <= phys[j].timer
      {
        if !phys[i].isUsed { continue; }
        assert i in queue;
        if phys[i].timer < minT {
          minT := phys[i].timer;
          r := i;
        }
      }
      if queue != [] { assert phys[queue[0]].isUsed; }
      if r != -1 { assert r in queue; }
    }

    method Kalloc() returns (f: Frame)
      requires Valid() && |free| > 0
      modifies this`free, this`frames
      ensures f == old(free[0]) && M() == Alloc(old(M())) && Valid() && Held(M(), loc, f)
      ensures Contents(M(), loc) == old(Contents(M(), loc)) && FrameAt(M(), f) == ZeroPage()
    {
      AllocOk(M(), loc, queue);
      f := free[0];
      free := free[1..];
      frames := frames[f := ZeroPage()];
    }

    /** writeToSwapFile; filewrite fails when the offset is past the end of the file. */
    method WriteToSwapFile(data: Page, slot: nat) returns (ok: bool)
      modifies this`swap
      ensures ok <==> slot <= |old(swap)|
      ensures swap == if ok then Swapped(old(swap), slot, data) else old(swap)
    {
      if slot > |swap| { return false; }
      swap := if slot < |swap| then swap[slot := data] else swap + [data];
      return true;
    }

    /** clearPagePhyMem */
    method ClearPagePhyMem(virtualAddress: nat, pageId: nat, f: Frame)
      requires pageId < phys.Length && phys != disc && Vpn(virtualAddress) in pte
      modifies this`free, this`frames, this`pte, phys
      ensures frames == old(frames)[f := JunkPage()] && free == [f] + old(free)
      ensures phys[..] == old(phys[..])[pageId := old(phys[pageId]).(isUsed := false)]
      ensures pte == old(pte)[Vpn(virtualAddress) := OutPte(old(pte)[Vpn(virtualAddress)])]
    {
      frames := frames[f := JunkPage()];
      free := [f] + free;
      phys[pageId] := phys[pageId].(isUsed := false);
      var p := Vpn(virtualAddress);
      pte := pte[p := OutPte(pte[p])];
    }

    /** The page in RAM slot v goes to slot s of the swap file, whose table entry becomes e. */
    method PageOut(v: nat, s: nat, e: PageData) returns (ok: bool)
      requires Valid() && queue != [] && v == queue[0] && s < disc.Length && !disc[s].isUsed
      requires forall j :: 0 <= j < s ==> disc[j].isUsed
      requires e.isUsed && e.virtualAddress == phys[v].virtualAddress
      modifies this`free, this`frames, this`pte, this`swap, this`loc, this`queue, phys, disc
      ensures ok && s <= |old(swap)| && M() == Evict(old(M()), v, s, e)
      ensures Vpn(e.virtualAddress) < |old(loc)| && loc == old(loc)[Vpn(e.virtualAddress) := Disc(s)]
      ensures queue == old(queue)[1..]
    {
      SlotWritable(M(), loc, queue, s);
      Victim(M(), loc, queue);
      var p := Vpn(phys[v].virtualAddress);
      assert Entered(M(), loc[p], p);
      hide Ok;
      var f := Frame(PteAddr(pte[p]));
      ok := WriteToSwapFile(frames[f], s);
      if !ok { return false; }
      disc[s] := e;
      ClearPagePhyMem(phys[v].virtualAddress, v, f);
      loc, queue := loc[p := Disc(s)], queue[1..];
    }

    /** reallocatePageInDisk: the page loaded first moves to the first unused slot of the swap file. */
    method ReallocatePageInDisk() returns (ok: bool)
      requires Valid()
      modifies this`free, this`frames, this`pte, this`swap, this`loc, this`queue, phys, disc
      ensures Valid() && Contents(M(), loc) == old(Contents(M(), loc))
      ensures ok <==> old(queue) != [] && !old(AllUsed(disc[..]))
      ensures ok ==> !phys[old(queue[0])].isUsed && !AllUsed(phys[..]) && queue == old(queue)[1..] && |free| == |old(free)| + 1
      ensures !ok ==> M() == old(M()) && loc == old(loc) && queue == old(queue)
      ensures SameLoose(old(loc), loc)
    {
      var v := ReplacementFifo();
      if v == -1 { return false; }
      var s := FindUnused(disc);
      if s == -1 { return false; }
      var e := phys[v].(timer := 0, ageCounter := 0);
      SlotWritable(M(), loc, queue, s);
      EvictOk(M(), loc, queue, s, e);
      SameLooseUpdate(loc, loc, Vpn(e.virtualAddress), Disc(s));
      hide Ok, Contents, SameLoose;
      ok := PageOut(v, s, e);
      assert !phys[..][v].isUsed;
    }

    /** readFromSwapFile: -1 past the end of the file, and at the end of it nothing is read. */
    method ReadFromSwapFile(buffer: Page, slot: nat) returns (bytesRead: int, data: Page)
      ensures bytesRead == if slot < |swap| then PGSIZE else if slot == |swap| then 0 else -1
      ensures data == if slot < |swap| then swap[slot] else buffer
    {
      if slot > |swap| { return -1, buffer; }
      if slot == |swap| { return 0, buffer; }
      return PGSIZE, swap[slot];
    }

    /** checkPTForPage: walkpgdir finds the entry, and its paged-out flag is on. */
    method CheckPT(virtualAddress: nat) returns (r: bool)
      ensures r <==> Vpn(virtualAddress) in pte && PagedOut(pte[Vpn(virtualAddress)])
    {
      if Vpn(virtualAddress) !in pte { return false; }
      return PagedOut(pte[Vpn(virtualAddress)]);
    }

    /** The search of the disc table by address alone; -1 if no slot carries it. */
    method FindCarrier(virtualAddress: nat) returns (r: int)
      ensures r == -1 ==> forall j :: 0 <= j < disc.Length ==> disc[j].virtualAddress != virtualAddress
      ensures r != -1 ==> 0 <= r < disc.Length && disc[r].virtualAddress == virtualAddress
      ensures r != -1 ==> forall j :: 0 <= j < r ==> disc[j].virtualAddress != virtualAddress
    {
      for i := 0 to disc.Length
        invariant forall j :: 0 <= j < i ==> disc[j].virtualAddress != virtualAddress
      {
        if disc[i].virtualAddress == virtualAddress { return i; }
      }
      return -1;
    }

    /** The slot's entry and its data move to RAM slot i and frame f. */
    method TakeBack(p: nat, f: Frame, i: nat, s: nat) returns (ok: bool)
      requires phys != disc && i < phys.Length && s < disc.Length && p in pte && f in frames
      modifies this`frames, this`pte, this`timer, phys, disc
      ensures ok <==> !Present(old(pte)[p]) && s <= |swap|
      ensures ok && s < |swap| ==> M() == PageIn(old(M()), p, f, i, s)
    {
      if Present(pte[p]) { return false; }  // panic: remap
      pte := pte[p := InPte(pte[p], f.addr)];
      var bytesRead, data := ReadFromSwapFile(frames[f], s);
      if bytesRead == -1 { return false; }
      phys[i] := disc[s];
      disc[s] := disc[s].(isUsed := false);
      phys[i] := phys[i].(timer := timer);
      timer := timer + 1;
      frames := frames[f := data];
      return true;
    }

    /** The second half of retrievePage: the page's data and its table entry come back, into frame f and RAM slot i. */
    method Reload(virtualAddress: nat, f: Frame, i: nat) returns (ok: bool)
      requires Valid() && Held(M(), loc, f) && i < phys.Length && !phys[i].isUsed && timer < INT_MAX
      requires Vpn(virtualAddress) < |loc| && loc[Vpn(virtualAddress)].Disc? && Base(Vpn(virtualAddress)) == virtualAddress
      modifies this`frames, this`pte, this`loc, this`queue, this`timer, phys, disc
      ensures ok && Valid() && Contents(M(), loc) == old(Contents(M(), loc))
      ensures loc == old(loc)[Vpn(virtualAddress) := Ram(i)] && queue == old(queue) + [i] && timer == old(timer) + 1
    {
      var p := Vpn(virtualAddress);
      assert Placed(M(), loc[p], p) && Entered(M(), loc[p], p);
      PageInOk(M(), loc, queue, p, f, i, loc[p].slot);
      var s := FindCarrier(virtualAddress);
      assert s != -1;
      FirstMatch(M(), loc, queue, p, s);
      hide *;
      ok := TakeBack(p, f, i, s);
      loc, queue := loc[p := Ram(i)], queue + [i];
    }

    /** The eviction inside retrievePage, while frame f waits for its page; -1 if the disc table is full. */
    method MakeRoom(ghost f: Frame, ghost p: nat) returns (v: int)
      requires Valid() && Held(M(), loc, f) && AllUsed(phys[..]) && p < |loc| && loc[p].Disc?
      modifies this`free, this`frames, this`pte, this`swap, this`loc, this`queue, phys, disc
      ensures Valid() && Held(M(), loc, f) && Contents(M(), loc) == old(Contents(M(), loc))
      ensures v == -1 <==> old(AllUsed(disc[..]))
      ensures v == -1 ==> M() == old(M()) && loc == old(loc) && queue == old(queue)
      ensures v != -1 ==> 0 <= v < phys.Length && !phys[v].isUsed && |free| + |queue| == old(|free| + |queue|)
      ensures SameLoose(old(loc), loc) && loc[p].Disc?
    {
      assert phys[0].isUsed && 0 in queue;
      v := ReplacementFifo();
      if v == -1 { return; }
      var s := FindUnused(disc);
      if s == -1 { return -1; }
      var e := disc[s].(isUsed := true, virtualAddress := phys[v].virtualAddress, timer := 0);
      SlotWritable(M(), loc, queue, s);
      EvictOk(M(), loc, queue, s, e);
      EvictKeepsHeld(M(), loc, queue, s, e, f);
      SameLooseUpdate(loc, loc, Vpn(e.virtualAddress), Disc(s));
      hide *;
      var ok := PageOut(v, s, e);
      if !ok { v := -1; }
    }

    /** retrievePage: it fails exactly when no slot of either table is unused, and then its new frame is lost. */
    method RetrievePage(cr2: nat) returns (ok: bool)
      requires Valid() && |free| > 0 && timer < INT_MAX
      requires Vpn(cr2) < |loc| && loc[Vpn(cr2)].Disc?
      modifies this`free, this`frames, this`pte, this`swap, this`loc, this`queue, this`timer, phys, disc
      ensures Valid() && Contents(M(), loc) == old(Contents(M(), loc))
      ensures ok <==> !old(Full(M()))
      ensures ok ==> loc[Vpn(cr2)].Ram? && timer == old(timer) + 1 && |free| + |queue| == old(|free| + |queue|)
      ensures SameLoose(old(loc), loc)
      ensures !ok ==> loc == old(loc) && queue == old(queue) && timer == old(timer) && M() == Alloc(old(M()))
    {
      hide Ok, Contents, AllUsed, Held, FrameAt;
      var f := Kalloc();
      var id := FindUnused(phys);
      if id == -1 {
        id := MakeRoom(f, Vpn(cr2));
        if id == -1 { return false; }
      }
      VpnBase(Vpn(cr2));
      SameLooseUpdate(old(loc), loc, Vpn(cr2), Ram(id));
      ok := Reload(Base(Vpn(cr2)), f, id);
    }

    /** updatePhysicalPageMetaData: page va takes the first unused slot of the RAM table, if there is one. */
    method UpdatePhysicalPageMetaData(virtualAddress: nat, isImportant: int)
      requires Valid() && timer < INT_MAX
      requires Vpn(virtualAddress) < |loc| && loc[Vpn(virtualAddress)] == Loose && Base(Vpn(virtualAddress)) == virtualAddress
      modifies this`loc, this`queue, this`timer, phys
      ensures Valid() && Contents(M(), loc) == old(Contents(M(), loc)) && free == old(free)
      ensures old(AllUsed(phys[..])) ==> M() == old(M()) && loc == old(loc) && queue == old(queue)
      ensures !old(AllUsed(phys[..])) ==>
                && timer == old(timer) + 1 && |queue| == |old(queue)| + 1
                && loc == old(loc)[Vpn(virtualAddress) := Ram(queue[|old(queue)|])]
    {
      hide Ok, Contents, AllUsed;
      ghost var m, p := M(), Vpn(virtualAddress);
      var id := FindUnused(phys);
      if id == -1 { return; }
      TrackOk(m, loc, queue, p, id, isImportant);
      phys[id] := PageData(true, virtualAddress, timer, 0, isImportant);
      timer := timer + 1;
      loc, queue := loc[p := Ram(id)], queue + [id];
      assert phys[..] == m.phys[id := PageData(true, virtualAddress, m.timer, 0, isImportant)];
    }

    /** kalloc, memset and mappages of the next page; it is in no table yet. */
    method MapPage(a: nat)
      requires Valid() && |free| > 0 && a == Base(|loc|)
      modifies this`free, this`frames, this`pte, this`loc
      ensures Valid() && Contents(M(), loc) == old(Contents(M(), loc)) + [ZeroPage()]
      ensures |free| == |old(free)| - 1 && loc == old(loc) + [Loose]
    {
      var f := Kalloc();
      MapNextOk(M(), loc, queue, f);
      VpnBase(|loc|);
      pte := pte[Vpn(a) := MapPte(f.addr)];
      loc := loc + [Loose];
    }

    /** The tables learn of the page just mapped; if no slot is left, they do not. */
    method TrackPage(a: nat, isImportant: int)
      requires Valid() && timer < INT_MAX && |loc| > 0 && a == Base(|loc| - 1) && loc[|loc| - 1] == Loose
      modifies this`free, this`frames, this`pte, this`swap, this`loc, this`queue, this`timer, phys, disc
      ensures Valid() && Contents(M(), loc) == old(Contents(M(), loc))
      ensures |loc| == |old(loc)| && timer <= old(timer) + 1
      ensures old(Full(M())) ==> M() == old(M()) && queue == old(queue)
      ensures !old(Full(M())) ==>
                && |free| + |queue| == old(|free| + |queue|) + 1
                && (Loose in loc ==> Loose in old(loc)[..|loc| - 1])
    {
      hide Ok, Contents;
      VpnBase(|loc| - 1);
      if AllUsed(phys[..]) { SomeVictim(M(), loc, queue); }
      var room := FindUnused(phys);
      if room == -1 {
        var ok := ReallocatePageInDisk();
        if !ok { return; }
      }
      ghost var now := loc;
      UpdatePhysicalPageMetaData(a, isImportant);
      assert loc == now[|loc| - 1 := loc[|loc| - 1]];
      if Loose in loc { LastTracked(old(loc), now, loc[|loc| - 1]); }
    }

    /** One iteration of the loop of allocuvm. */
    method AddPage(a: nat, isImportant: int)
      requires Valid() && Tight(M(), loc) && |free| > 0 && timer < INT_MAX && a == Base(|loc|)
      modifies this`free, this`frames, this`pte, this`swap, this`loc, this`queue, this`timer, phys, disc
      ensures Valid() && Tight(M(), loc) && Contents(M(), loc) == old(Contents(M(), loc)) + [ZeroPage()]
      ensures timer <= old(timer) + 1
      ensures |free| + |queue| == old(|free| + |queue|) - if old(Full(M())) then 1 else 0
    {
      hide Ok, Contents, AllUsed;
      MapPage(a);
      assert loc[..|loc| - 1] == old(loc);
      TrackPage(a, isImportant);
    }

    /** How many of n pages are beyond the thirty slots. */
    static function Excess(n: nat): nat { if n > MAX_TOTAL_PAGES then n - MAX_TOTAL_PAGES else 0 }

    /** kalloc succeeds: enough frames for the RAM table, one in flight, and the pages that get no slot. */
    ghost predicate EnoughFrames(n: nat)
      reads this
    {
      |free| + |queue| > MAX_PYSC_PAGES + Excess(n) - Excess(|loc|)
    }

    /** allocuvm: 0 if it refuses, and else the new size, with zeroed pages after the old ones. */
    method Allocuvm(oldsz: nat, newsz: nat, isImportant: int) returns (r: nat)
      requires Valid() && Tight(M(), loc) && |loc| == Pages(oldsz)
      requires newsz < KERNBASE ==> EnoughFrames(Pages(newsz)) && timer + Pages(newsz) - Pages(oldsz) <= INT_MAX
      modifies this`free, this`frames, this`pte, this`swap, this`loc, this`queue, this`timer, phys, disc
      ensures Valid() && Tight(M(), loc)
      ensures r == if newsz >= KERNBASE then 0 else if newsz < oldsz then oldsz
                   else if |old(loc)| >= MAX_TOTAL_PAGES then 0 else newsz
      ensures r != newsz || newsz <= oldsz ==> M() == old(M()) && loc == old(loc) && queue == old(queue)
      ensures r == newsz > oldsz ==>
                Contents(M(), loc) == old(Contents(M(), loc)) + ZeroPages(Pages(newsz) - Pages(oldsz))
      ensures timer - |loc| <= old(timer - |loc|)
      ensures |free| + |queue| + Excess(|loc|) == old(|free| + |queue| + Excess(|loc|))
    {
      hide Ok, Contents, AllUsed;
      if newsz >= KERNBASE { return 0; }
      if newsz < oldsz { return oldsz; }
      var av1 := FindUnused(phys);
      var av2 := FindUnused(disc);
      FullExactly(M(), loc, queue);
      if av1 == -1 && av2 == -1 { return 0; }
      var a := Base(Pages(oldsz));
      ghost var c0 := Contents(M(), loc);
      assert c0 + ZeroPages(0) == c0;
      while a < newsz
        invariant Valid() && Tight(M(), loc) && a == Base(|loc|) && Pages(oldsz) <= |loc| && (|loc| <= Pages(newsz) || |loc| == Pages(oldsz))
        invariant a == Base(Pages(oldsz)) ==> M() == old(M()) && loc == old(loc) && queue == old(queue)
        invariant Contents(M(), loc) == c0 + ZeroPages(|loc| - Pages(oldsz))
        invariant timer - |loc| <= old(timer - |loc|)
        invariant |free| + |queue| + Excess(|loc|) == old(|free| + |queue| + Excess(|loc|))
      {
        FullExactly(M(), loc, queue);
        QueueFits(M(), loc, queue);
        ghost var k := |loc| - Pages(oldsz);
        assert c0 + ZeroPages(k) + [ZeroPage()] == c0 + ZeroPages(k + 1);
        AddPage(a, isImportant);
        a := a + PGSIZE;
      }
      return newsz;
    }

    /** Between two user instructions. */
    ghost predicate Good()
      reads this, phys, disc
    {
      Valid() && Tight(M(), loc) && |loc| == Pages(sz) && sz < KERNBASE
    }

    /** The memory the program sees. */
    ghost function View(): Flat
      reads this, phys, disc
      requires Valid()
    {
      Flat(sz, BytesOf(Contents(M(), loc)))
    }

    /** growproc, for growing: it refuses at KERNBASE and once all slots are used, and changes nothing then. */
    method Growproc(n: nat) returns (ok: bool)
      requires Good() && n <= INT_MAX
      requires sz + n < KERNBASE ==> EnoughFrames(Pages(sz + n)) && timer + Pages(sz + n) - Pages(sz) <= INT_MAX
      modifies this, phys, disc
      ensures Good()
      ensures ok <==> n == 0 || (old(sz) + n < KERNBASE && |old(loc)| < MAX_TOTAL_PAGES)
      ensures !ok ==> M() == old(M()) && loc == old(loc) && queue == old(queue) && sz == old(sz)
      ensures ok ==> View() == FlatMemory.Step(old(View()), Sbrk(n)).0
      // every byte stays, and zeros follow up to the end of the last page
      ensures ok ==> sz == old(sz) + n && |View().bytes| == Pages(sz) * PGSIZE
      ensures ok ==> forall a :: 0 <= a < |View().bytes| ==>
                View().bytes[a] == if a < |old(View()).bytes| then old(View()).bytes[a] else 0
      ensures timer - |loc| <= old(timer - |loc|)
      ensures |free| + |queue| + Excess(|loc|) == old(|free| + |queue| + Excess(|loc|))
    {
      hide Ok, Contents, BytesOf, ZeroPages;
      BytesAppend(Contents(M(), loc), Pages(sz + n) - Pages(sz));
      assert BytesOf(Contents(M(), loc)) + Nulls(0) == BytesOf(Contents(M(), loc));
      if n > 0 {
        var r := Allocuvm(sz, sz + n, 0);
        if r == 0 { return false; }
        sz := r;
      }
      return true;
    }

    /** What the processor and the page fault trap do before an instruction reads or writes address a:
        false if the process is killed. */
    method Touch(a: nat) returns (ok: bool)
      requires Good() && |free| > 0 && timer < INT_MAX
      modifies this`free, this`frames, this`pte, this`swap, this`loc, this`queue, this`timer, phys, disc
      ensures Good() && View() == old(View())
      ensures ok <==> Vpn(a) < |loc| && (old(loc[Vpn(a)].Disc?) ==> |loc| < MAX_TOTAL_PAGES)
      ensures ok ==> Vpn(a) < |loc| && !loc[Vpn(a)].Disc? && |free| + |queue| == old(|free| + |queue|)
      ensures !ok ==> |free| + |queue| == old(|free| + |queue|) - if Vpn(a) < |loc| then 1 else 0
      ensures |loc| == |old(loc)| && timer <= old(timer) + 1
    {
      hide Ok, Contents, BytesOf, Usable, PagedOut, AllUsed, SameLoose;
      FullExactly(M(), loc, queue);
      EntryTells(M(), loc, queue, Vpn(a));
      if Vpn(a) in pte && Usable(pte[Vpn(a)]) { return true; }
      var check := CheckPT(a);
      if !check { return false; }
      ok := RetrievePage(a);
      SameLooseTight(old(loc), loc);
    }

    method Load(a: nat) returns (r: Answer)
      requires Good() && |free| > 0 && timer < INT_MAX
      modifies this`free, this`frames, this`pte, this`swap, this`loc, this`queue, this`timer, phys, disc
      ensures Good() && View() == old(View()) && |loc| == |old(loc)| && timer <= old(timer) + 1
      ensures r == Killed <==> Vpn(a) >= |loc| || (old(loc[Vpn(a)].Disc?) && |loc| >= MAX_TOTAL_PAGES)
      ensures r != Killed || Vpn(a) >= |loc| ==> r == FlatMemory.Step(old(View()), FlatMemory.Load(a)).1
      ensures r != Killed ==> a < |View().bytes| && r == Loaded(View().bytes[a])
      // the fault that kills a process for a page it has loses a frame
      ensures |free| + |queue| == old(|free| + |queue|) - if r == Killed && Vpn(a) < |loc| then 1 else 0
    {
      var ok := Touch(a);
      if !ok { return Killed; }
      var p := Vpn(a);
      assert Entered(M(), loc[p], p);
      r := Loaded(frames[Frame(PteAddr(pte[p]))][a % PGSIZE]);
      assert Contents(M(), loc)[p][a % PGSIZE] == BytesOf(Contents(M(), loc))[a];
    }

    method Store(a: nat, b: byte) returns (r: Answer)
      requires Good() && |free| > 0 && timer < INT_MAX
      modifies this`free, this`frames, this`pte, this`swap, this`loc, this`queue, this`timer, phys, disc
      ensures Good() && |loc| == |old(loc)| && timer <= old(timer) + 1
      ensures r == Killed <==> Vpn(a) >= |loc| || (old(loc[Vpn(a)].Disc?) && |loc| >= MAX_TOTAL_PAGES)
      ensures r != Killed || Vpn(a) >= |loc| ==> (View(), r) == FlatMemory.Step(old(View()), FlatMemory.Store(a, b))
      ensures r != Killed ==> a < |old(View()).bytes| && View().sz == old(View()).sz && View().bytes == old(View()).bytes[a := b]
      ensures r == Killed ==> View() == old(View())
      // the fault that kills a process for a page it has loses a frame
      ensures |free| + |queue| == old(|free| + |queue|) - if r == Killed && Vpn(a) < |loc| then 1 else 0
    {
      var ok := Touch(a);
      if !ok { return Killed; }
      var p := Vpn(a);
      assert Entered(M(), loc[p], p);
      PokeOk(M(), loc, queue, p, a % PGSIZE, b);
      BytesPoke(Contents(M(), loc), a, b);
      ghost var m := M();
      var f := Frame(PteAddr(pte[p]));
      frames := frames[f := frames[f][a % PGSIZE := b]];
      assert M() == Poke(m, p, a % PGSIZE, b);
      return Stored;
    }

    /** One user operation on a process that stays below MAX_TOTAL_PAGES pages: what flat memory does. */
    method Step(op: Op) returns (r: Answer)
      requires Good() && |free| + |queue| > MAX_PYSC_PAGES && timer - |loc| + MAX_TOTAL_PAGES < INT_MAX
      requires (op.Sbrk? ==> op.n <= INT_MAX) && Pages(FlatMemory.Step(View(), op).0.sz) < MAX_TOTAL_PAGES
      modifies this, phys, disc
      ensures Good() && (View(), r) == FlatMemory.Step(old(View()), op)
      ensures r != Killed ==> |free| + |queue| > MAX_PYSC_PAGES
      ensures timer - |loc| <= old(timer - |loc|) + 1
    {
      QueueFits(M(), loc, queue);
      hide Ok, Contents, BytesOf;
      match op {
        case Sbrk(n) =>
          var ok := Growproc(n);
          r := if ok then Grown else Refused;
        case Load(a) =>
          r := Load(a);
        case Store(a, b) =>
          r := Store(a, b);
      }
    }

    /** Paging is invisible: any run of sbrk, loads and stores on a process that never reaches MAX_TOTAL_PAGES pages
        gets the answers flat memory gives, and leaves the same bytes. */
    method Run(ops: seq<Op>) returns (answers: seq<Answer>)
      requires Good() && |free| + |queue| > MAX_PYSC_PAGES && timer + |ops| + MAX_TOTAL_PAGES < INT_MAX
      requires forall k :: 0 <= k < |ops| && ops[k].Sbrk? ==> ops[k].n <= INT_MAX
      requires Pages(FlatMemory.Run(View(), ops).0.sz) < MAX_TOTAL_PAGES
      modifies this, phys, disc
      ensures Good() && (View(), answers) == FlatMemory.Run(old(View()), ops)
      // each load answers what was last stored at its address, or the byte from before, or 0
      ensures RightAnswers(old(View()), ops, 0, answers, View())
    {
      hide Ok, Contents, BytesOf, Partial, FlatMemory.Run, FlatMemory.Step, RightAnswers, Whole, Pages;
      ghost var v0 := View();
      RowIsWhole(sz, Contents(M(), loc));
      RunIsRight(v0, ops);
      PartialStart(v0, ops);
      answers := [];
      var k := 0;
      while k < |ops|
        invariant 0 <= k <= |ops| && Good() && |free| + |queue| > MAX_PYSC_PAGES
        invariant timer - |loc| + (|ops| - k) + MAX_TOTAL_PAGES < INT_MAX
        invariant Partial(v0, ops, k, View(), answers)
      {
        PartialStep(v0, ops, k, View(), answers);
        PagesGrow(FlatMemory.Step(View(), ops[k]).0.sz, FlatMemory.Run(v0, ops).0.sz);
        var r := Step(ops[k]);
        answers := answers + [r];
        k := k + 1;
        if r == Killed { return; }
      }
      PartialDone(v0, ops, View(), answers);
    }
  }

  /** The address of a page in the swap file, of a process that has filled both tables. */
  lemma SomePagedOut(m: Mem, loc: seq<Loc>, queue: seq<nat>)
    requires Ok(m, loc, queue) && Tight(m, loc) && |loc| >= MAX_TOTAL_PAGES
    ensures var a := m.disc[0].virtualAddress; Vpn(a) < |loc| && loc[Vpn(a)].Disc? && a == Base(Vpn(a))
  {
    FullExactly(m, loc, queue);
    assert m.disc[0].isUsed;
    assert LocIs(loc, m.disc[0].virtualAddress, Disc(0));
    VpnBase(Vpn(m.disc[0].virtualAddress));
  }

  /** An input where the program is killed though flat memory would answer 0: it grows to thirty pages and loads from the
      page in the first slot of the disc table; and a frame is lost. */
  method KilledAtThirty(frames: map<Frame, Page>, free: seq<Frame>, stale: PageData)
      returns (r: Answer, ghost expected: Answer, ghost before: nat, ghost after: nat)
    requires forall k :: 0 <= k < |free| ==> IsFrame(free[k].addr) && free[k] in frames
    requires forall k, l :: 0 <= k < l < |free| ==> free[k] != free[l]
    requires |free| > MAX_PYSC_PAGES
    ensures r == Killed && expected == Loaded(0) && after == before - 1
  {
    hide Ok, Contents, BytesOf, Tight, AllUsed;
    var p := new Process(frames, free, stale);
    assert BytesOf([]) == [] && Contents(p.M(), p.loc) == [];
    var ok := p.Growproc(MAX_TOTAL_PAGES * PGSIZE);
    QueueFits(p.M(), p.loc, p.queue);
    SomePagedOut(p.M(), p.loc, p.queue);
    var a := p.disc[0].virtualAddress;
    assert a < MAX_TOTAL_PAGES * PGSIZE;
    assert p.View().bytes == Nulls(MAX_TOTAL_PAGES * PGSIZE);
    expected := FlatMemory.Step(p.View(), FlatMemory.Load(a)).1;
    before := |p.free| + |p.queue|;
    r := p.Load(a);
    after := |p.free| + |p.queue|;
  }
}
