/**
 The page allocator and the page tables: kalloc, kfree, walkpgdir, mappages, setupkvm,
 deallocuvm, freevm and copyuvm on the memory of VmModel.  Addresses are page numbers.
 */
module Vm {
  import opened Basics
  import opened VmModel

  const TOP: nat := ENTRIES * ENTRIES              // pages of a 32-bit address space

  function Min(a: nat, b: nat): nat { if a < b then a else b }

  /** PGROUNDUP(n) as a page number. */
  function RoundUp(n: nat): nat { (n + PGSIZE - 1) / PGSIZE }

  /** The first page with no byte below n. */
  lemma RoundUpIs(n: nat, page: nat)
    ensures page >= RoundUp(n) <==> page * 4096 >= n
  {
  }

  class Machine {
    var mem: Memory
    var free: seq<nat>
    ghost var role: Roles

    /** Frame 0 is not kalloc's: kfree and deallocuvm panic on it. */
    ghost predicate Valid()
      reads this
    {
      Ok(mem, free, role) && SameKeys(mem, role) && 0 !in role
    }

    /** freerange: the frames from lo up to hi, and no others, are on kalloc's list. */
    constructor (lo: nat, hi: nat)
      requires 0 < lo <= hi
      ensures Valid() && (forall f :: f in role <==> lo <= f < hi) && (forall f :: f in role ==> role[f] == Free)
    {
      mem, free, role := map[], [], map[];
      new;
      for p := lo to hi
        invariant Valid() && (forall f :: f in role <==> lo <= f < p) && (forall f :: f in role ==> role[f] == Free)
      {
        mem := mem[p := Data(Filled(1))];
        free := [p] + free;
        role := role[p := Free];
        forall f | f in role ensures Placed(mem, role, f) {}
      }
    }

    method Kalloc() returns (r: Option<nat>)
      requires Valid()
      modifies this`free, this`role
      ensures Valid()
      ensures r.None? <==> old(free) == []
      ensures r.None? ==> free == old(free) && role == old(role)
      ensures r.Some? ==> r.value in old(role) && old(role)[r.value] == Free && role == old(role)[r.value := Held]
      ensures r.Some? ==> free == old(free)[1..]
    {
      if free == [] { return None; }
      KallocOk(mem, free, role);
      r := Some(free[0]);
      role := role[free[0] := Held];
      free := free[1..];
    }

    method Kfree(f: nat)
      requires Valid() && f in role && role[f] == Held
      modifies this
      ensures Valid() && role == old(role)[f := Free] && SameMaps(old(mem), mem, old(role))
      ensures mem == old(mem)[f := Data(Filled(1))]
    {
      KfreeOk(mem, free, role, f);
      mem := mem[f := Data(Filled(1))];
      free := [f] + free;
      role := role[f := Free];
    }

    /** walkpgdir for a page under directory entry i: is its page table there, made if alloc is set and kalloc can? */
    method Walk(d: nat, i: nat, alloc: bool) returns (ok: bool)
      requires Valid() && IsDir(role, d) && i < ENTRIES
      modifies this
      ensures Valid() && SameMaps(old(mem), mem, old(role)) && TablesGrow(old(role), role, d)
      ensures SameBytes(old(mem), old(role), mem, role)
      ensures ok <==> Slot(mem, d, i).p
      ensures ok <==> i in TablesOf(old(mem), d) || (alloc && old(free) != [])
      ensures ok ==> Spent(old(mem), old(free), mem, free, d, {i})
      ensures !alloc || !ok ==> mem == old(mem) && role == old(role) && free == old(free)
    {
      hide Ok, SameMaps, TablesGrow, SameBytes, Spent, TablesOf, SetSlot, NoEntries, SameKeys;
      TableThere(mem, free, role, d, i);
      if Slot(mem, d, i).p { return true; }
      if !alloc { return false; }
      var f := Kalloc();
      if f.None? { return false; }
      TableMade(mem, old(free), old(role), free, d, i, f.value);
      mem := mem[f.value := NoEntries()];
      mem := SetSlot(mem, d, i, Pte(f.value, true, true, true));
      role := role[f.value := Tab(d, i)];
      return true;
    }

    /** One iteration of the loop of mappages; page a is not mapped yet, so it does not panic.  It fails exactly if it needs
        a page table and no frame is free. */
    method MapOne(d: nat, a: nat, pa: nat, w: bool, u: bool) returns (ok: bool)
      requires Valid() && IsDir(role, d) && a < TOP && !At(mem, d, a).p
      requires a < KERNBASE ==> pa in role && role[pa] == Held && pa in mem && mem[pa].Data?
      modifies this
      ensures Valid()
      ensures !ok ==> mem == old(mem) && role == old(role) && free == old(free)
      ensures ok ==> MappedRange(old(mem), mem, old(role), d, a, 1, pa, w, u)
      ensures ok ==> TablesGrow(MappedRole(old(role), d, a / ENTRIES, a % ENTRIES, Pte(pa, true, w, u)), role, d)
      ensures ok ==> SameBytes(old(mem), old(role), mem, role) && (a < KERNBASE ==> pa in mem && mem[pa] == old(mem[pa]))
      ensures ok <==> a / ENTRIES in TablesOf(old(mem), d) || old(free) != []
      ensures ok ==> Spent(old(mem), old(free), mem, free, d, {a / ENTRIES})
    {
      hide Ok, TablesGrow, SameBytes, MappedRange, SameMaps, SameKeys, WithPte, TablesOf, Spent;
      ghost var m0, f0, r0 := mem, free, role;
      var e := Pte(pa, true, w, u);
      ok := Walk(d, a / ENTRIES, true);
      if !ok { return; }
      GrewKeeps(m0, r0, mem, role, d, pa);
      SameMapsAt(m0, mem, r0, d, a);
      if At(mem, d, a).p { return false; }  // panic: remap
      MapOneOk(m0, r0, mem, free, role, d, a, e);
      SpentOnPte(mem, free, role, d, a, e);
      SpentThen(m0, f0, mem, free, WithPte(mem, d, a / ENTRIES, a % ENTRIES, e), free, d, {a / ENTRIES}, {}, {a / ENTRIES});
      mem := WithPte(mem, d, a / ENTRIES, a % ENTRIES, e);
      role := MappedRole(role, d, a / ENTRIES, a % ENTRIES, e);
    }

    /** deallocuvm on byte sizes: the pages between them are unmapped and their frames freed, and nothing else changes. */
    method Deallocuvm(d: nat, oldsz: nat, newsz: nat) returns (r: nat)
      requires Valid() && IsDir(role, d) && oldsz <= KERNBASE * PGSIZE
      modifies this
      ensures Valid() && r == if newsz >= oldsz then oldsz else newsz
      ensures newsz >= oldsz ==> mem == old(mem) && role == old(role) && free == old(free)
      ensures newsz < oldsz ==> Cleared(old(mem), old(role), mem, role, d, RoundUp(newsz), RoundUp(oldsz))
    {
      hide Ok, Cleared, At, WithoutPage, WithPte;
      if newsz >= oldsz { return oldsz; }
      var a, end := RoundUp(newsz), RoundUp(oldsz);
      ghost var m0, r0, lo := mem, role, a;
      ClearedStart(mem, role, d, lo);
      while a < end
        invariant lo <= a && Valid() && IsDir(role, d) && Cleared(m0, r0, mem, role, d, lo, Min(a, end))
        decreases end - a
      {
        if !Slot(mem, d, a / ENTRIES).p {
          // no page table: on to the first page of the next one
          ghost var a0 := a;
          a := (a / ENTRIES + 1) * ENTRIES;
          AbsentTable(mem, d, a0, Min(a, end));
          SkipTable(m0, r0, mem, free, role, d, lo, a0, Min(a, end));
        } else {
          if At(mem, d, a).p {
            ClearStep(m0, r0, mem, free, role, d, lo, a);
            var f := At(mem, d, a).frame;
            assert f != 0;  // "kfree"
            mem := WithoutPage(mem, d, a);
            free := [f] + free;
            role := role[f := Free];
          } else {
            OneAbsent(mem, d, a);
            SkipTable(m0, r0, mem, free, role, d, lo, a, a + 1);
          }
          a := a + 1;
        }
      }
      return newsz;
    }

    /** freevm: every frame of the address space goes back to kalloc, and no other frame or mapping changes. */
    method Freevm(d: nat)
      requires Valid() && IsDir(role, d)
      modifies this
      ensures Valid() && role == Released(old(role), d)
      ensures OthersKept(old(mem), mem, old(role), d) && SameBytes(old(mem), old(role), mem, role)
    {
      hide Ok, Cleared, At, Released, Releasing, SameBytes, Unmapped, OthersKept;
      ghost var m0, f0, r0 := mem, free, role;
      var _ := Deallocuvm(d, KERNBASE * PGSIZE, 0);
      ghost var m1, f1, r1 := mem, free, role;
      ClearedAll(m0, r0, m1, r1, d);
      FreeTables(d);
      FreevmFacts(m0, f0, r0, m1, r1, mem, d);
      Kfree(d);
    }

    /** The loop of freevm over the directory. */
    method FreeTables(d: nat)
      requires Valid() && IsDir(role, d) && NoUserPages(mem, d)
      modifies this
      ensures Valid() && TablesFreed(old(mem), old(role), mem, role, d, ENTRIES)
    {
      hide Ok, TablesFreed;
      ghost var m1, f1, r1 := mem, free, role;
      TablesFreedStart(mem, free, role, d);
      role := Releasing(role, d, 0);
      for i := 0 to ENTRIES
        invariant Valid() && TablesFreed(m1, r1, mem, role, d, i)
      {
        TablesFreedStep(m1, f1, r1, mem, role, d, i);
        if Slot(mem, d, i).p { Kfree(Slot(mem, d, i).frame); }
      }
    }

    /** mappages for kernel pages: n of the pages from first to last are mapped, all of them unless kalloc fails. */
    method MapPages(d: nat, first: nat, last: nat, pa: nat, w: bool, u: bool) returns (ok: bool, ghost n: nat)
      requires Valid() && IsDir(role, d) && KERNBASE <= first <= last < TOP
      requires forall v :: first <= v <= last ==> !At(mem, d, v).p
      modifies this
      ensures Valid() && IsDir(role, d) && n <= last + 1 - first && (ok <==> n == last + 1 - first)
      ensures MappedRange(old(mem), mem, old(role), d, first, n, pa, w, u)
      ensures TablesGrow(old(role), role, d) && SameBytes(old(mem), old(role), mem, role)
      ensures Spent(old(mem), old(free), mem, free, d, TablesFor(first, n))
      ensures !ok ==> free == [] && (first + n) / ENTRIES !in TablesOf(mem, d)
    {
      hide Ok, At, TablesGrow, SameBytes, MappedRange, Spent, TablesOf, TablesFor;
      ghost var m0, f0, r0 := mem, free, role;
      SpentNothing(mem, mem, free, d);
      TablesForMore(first, 0);
      RangeStart(m0, r0, d, first, pa, w, u);
      SameRoles(m0, r0, d);
      n := 0;
      var a, frame := first, pa;
      while true
        invariant Valid() && IsDir(role, d) && first <= a <= last && n == a - first && frame == pa + n
        invariant MappedRange(m0, mem, r0, d, first, n, pa, w, u)
        invariant TablesGrow(r0, role, d) && SameBytes(m0, r0, mem, role)
        invariant Spent(m0, f0, mem, free, d, TablesFor(first, n))
        decreases last - a
      {
        RangeElsewhere(m0, mem, r0, d, first, n, pa, w, u, a);
        ghost var m1, f1, r1 := mem, free, role;
        ok := MapOne(d, a, frame, w, u);
        if !ok { return; }
        TablesForMore(first, n);
        SpentThen(m0, f0, m1, f1, mem, free, d, TablesFor(first, n), {a / ENTRIES}, TablesFor(first, n + 1));
        RangeMore(m0, r0, m1, r1, mem, role, d, first, n, pa, w, u);
        n := n + 1;
        if a == last { return; }
        a := a + 1;
        frame := frame + 1;
      }
    }

    /** setupkvm: a directory with the kernel's mappings and nothing else, on exactly 65 frames; or, exactly when there are
        fewer, nothing: every frame is free that was free before. */
    method Setupkvm(data: nat) returns (r: Option<nat>)
      requires Valid() && EXTMEM < data < PHYSTOP
      modifies this
      ensures Valid() && AllKept(old(mem), old(role), mem, role)
      ensures r.None? ==> role == old(role)
      ensures r.None? <==> |old(free)| < 1 + KERNEL_TABLES
      ensures r.Some? ==>
                && r.value in old(role) && old(role)[r.value] == Free && IsDir(role, r.value)
                && Grown(old(role), role, r.value) && KernelPart(mem, r.value, data, 4)
                && Paid(old(free), mem, free, r.value, KernelTables(data, 4), 1)
      // 224 MB of memory from 2 GB on, read-only from 1 MB to data; the devices from 0xFE000000 on; and nothing else
      ensures r.Some? ==> forall v :: 0 <= v < 0x10_0000 ==>
                At(mem, r.value, v) ==
                  if 0x8_0000 <= v < 0x8_E000 then Pte(v - 0x8_0000, true, v < 0x8_0100 || 0x8_0000 + data <= v, false)
                  else if 0xF_E000 <= v then Pte(v, true, true, false)
                  else Pte(0, false, false, false)
    {
      hide Paid, Spent, TablesOf, TablesFor, KernelTables;
      hide Ok, At, AllKept, Grown, SameBytes, TablesGrow, MappedRange, SameMaps, Released, OthersKept, KernelPart, NoEntries;
      ghost var m0, f0, r0 := mem, free, role;
      KeptStart(m0, r0);
      r := Kalloc();
      if r.None? { return; }
      var d := r.value;
      NewDirFacts(m0, f0, r0, free, d, data);
      PaidStart(f0, mem, d);
      NoKernelTables(data);
      AllKernelTables(data);
      mem := mem[d := NoEntries()];
      role := role[d := Dir];
      assert role == r0[d := Dir];
      for k := 0 to 4
        invariant Valid() && IsDir(role, d) && Grown(r0, role, d) && AllKept(m0, r0, mem, role) && KernelPart(mem, d, data, k)
        invariant Paid(f0, mem, free, d, KernelTables(data, k), 1)
      {
        var e := KmapTable(data)[k];
        ghost var m1, f1, r1 := mem, free, role;
        KernelMore(m1, m1, r1, d, data, k);
        var ok, n := MapPages(d, e.virt, e.virt + KmapPages(e) - 1, e.physStart, e.w, false);
        SetupStep(m0, f0, r0, m1, r1, mem, role, d, e.virt, n, e.physStart, e.w);
        PaidMore(f0, m1, f1, mem, free, d, KernelTables(data, k), 1, TablesFor(e.virt, n));
        KernelTablesWithin(data, k);
        if !ok {
          MissingTable(f0, mem, free, d, data, k, n);
          Undo(m0, f0, r0, d);
          return None;
        }
        KernelMore(m1, mem, r1, d, data, k);
      }
      PaidInFull(f0, mem, free, d, data);
      KernelPages(mem, d, data);
    }

    /** The failure path of setupkvm and copyuvm. */
    method Undo(ghost m0: Memory, ghost f0: seq<nat>, ghost r0: Roles, d: nat)
      requires Valid() && IsDir(role, d) && Ok(m0, f0, r0) && d in r0 && r0[d] == Free
      requires Grown(r0, role, d) && AllKept(m0, r0, mem, role)
      modifies this
      ensures Valid() && role == r0 && AllKept(m0, r0, mem, role)
    {
      hide Ok, At, SameBytes, Released, OthersKept, AllKept, Grown;
      ghost var m1, r1 := mem, role;
      Freevm(d);
      UndoFacts(m0, f0, r0, m1, r1, mem, role, d);
    }

    /** copyuvm: a new address space whose user pages are fresh copies of the parent's, with the same flags, and the parent
        untouched; or, exactly when the frames do not suffice, nothing: every frame is free that was free before. */
    method Copyuvm(p: nat, sz: nat, data: nat) returns (r: Option<nat>)
      requires Valid() && IsDir(role, p) && sz <= KERNBASE * PGSIZE && EXTMEM < data < PHYSTOP
      requires forall v :: 0 <= v < RoundUp(sz) ==> At(mem, p, v).p
      modifies this
      ensures Valid() && AllKept(old(mem), old(role), mem, role)
      ensures r.None? ==> role == old(role)
      ensures r.None? <==> |old(free)| < CopyCost(RoundUp(sz))
      ensures r.Some? ==> |free| == |old(free)| - CopyCost(RoundUp(sz))
      ensures r.Some? ==>
                && r.value in old(role) && old(role)[r.value] == Free && IsDir(role, r.value)
                && Grown(old(role), role, r.value) && Copied(old(mem), mem, p, r.value, RoundUp(sz), data)
    {
      hide Paid, Spent, TablesOf, KernelTables, CopyTables, UserTables;
      hide Ok, At, AllKept, Grown, SameBytes, TablesGrow, MappedRange, KernelPart, Copied;
      ghost var m0, f0, r0 := mem, free, role;
      r := Setupkvm(data);
      if r.None? { return; }
      var d := r.value;
      CopyTablesSize(data, 0);
      CopiedStart(m0, mem, p, d, data);
      var i := 0;
      while i < RoundUp(sz)
        invariant 0 <= i <= RoundUp(sz) && Valid() && IsDir(role, d) && Grown(r0, role, d) && AllKept(m0, r0, mem, role)
        invariant Copied(m0, mem, p, d, i, data) && Paid(f0, mem, free, d, CopyTables(data, i), 1 + i)
      {
        ghost var m1, f1, r1 := mem, free, role;
        CopyTablesSize(data, i);
        TooFew(f0, m1, f1, d, data, i, RoundUp(sz), false);
        var f := Kalloc();
        if f.None? {
          Undo(m0, f0, r0, d);
          return None;
        }
        CopyPage(m0, f0, r0, m1, f1, r1, free, role, p, d, i, data, f.value);
        PaidPage(f0, mem, f1, d, CopyTables(data, i), 1 + i, f.value, mem[At(mem, p, i).frame]);
        mem := mem[f.value := mem[At(mem, p, i).frame]];
        ghost var m2, f2, r2 := mem, free, role;
        TooFew(f0, m2, f2, d, data, i, RoundUp(sz), true);
        var pte := At(mem, p, i);
        var ok := MapOne(d, i, f.value, pte.w, pte.u);
        if !ok {
          Kfree(f.value);
          BadPage(m0, f0, r0, m1, r1, m2, r2, mem, role, d, f.value);
          Undo(m0, f0, r0, d);
          return None;
        }
        PaidMore(f0, m2, f2, mem, free, d, CopyTables(data, i), 2 + i, {i / ENTRIES});
        CopyStep(m0, f0, r0, m1, f1, r1, m2, r2, mem, role, p, d, i, data, f.value);
        i := i + 1;
      }
      CopyPaid(f0, mem, free, d, data, i);
    }
  }

  lemma TableThere(mem: Memory, free: seq<nat>, role: Roles, d: nat, i: nat)
    requires i < ENTRIES
    ensures SameMaps(mem, mem, role) && TablesGrow(role, role, d) && SameBytes(mem, role, mem, role)
    ensures i in TablesOf(mem, d) <==> Slot(mem, d, i).p
    ensures i in TablesOf(mem, d) ==> Spent(mem, free, mem, free, d, {i})
  {
    assert i in TablesOf(mem, d) ==> TablesOf(mem, d) + {i} == TablesOf(mem, d);
  }

  lemma TableMade(mem: Memory, free: seq<nat>, role: Roles, rest: seq<nat>, d: nat, i: nat, f: nat)
    requires free != [] && rest == free[1..] && f in role && role[f] == Free && SameKeys(mem, role)
    requires Ok(mem, rest, role[f := Held]) && IsDir(role, d) && i < ENTRIES && !Slot(mem, d, i).p
    ensures var after, role' := WithTable(mem, d, i, f), role[f := Tab(d, i)];
            && Ok(after, rest, role') && SameKeys(after, role') && SameMaps(mem, after, role) && TablesGrow(role, role', d)
            && SameBytes(mem, role, after, role') && Slot(after, d, i).p && Spent(mem, free, after, rest, d, {i})
    ensures role[f := Tab(d, i)] == role[f := Held][f := Tab(d, i)]
  {
    hide Ok, SameMaps, SameBytes, Spent, TablesOf, WithTable;
    DirPlaced(mem, rest, role[f := Held], d);
    WithTableOk(mem, rest, role[f := Held], d, i, f);
    SameMapsHeld(mem, WithTable(mem, d, i, f), role, f);
    assert role[f := Held][f := Tab(d, i)] == role[f := Tab(d, i)];
    SpentOne(mem, free, d, i, f);
    SlotsWithTable(mem, d, i, f, d, i);
    TableBytes(mem, role, d, i, f);
  }

  lemma DirPlaced(mem: Memory, free: seq<nat>, role: Roles, d: nat)
    requires Ok(mem, free, role) && IsDir(role, d)
    ensures d in mem && mem[d].Table? && |mem[d].entries| == ENTRIES
  {
    assert Placed(mem, role, d);
  }

  lemma SameMapsHeld(mem: Memory, after: Memory, role: Roles, f: nat)
    requires f in role && role[f] == Free && SameMaps(mem, after, role[f := Held])
    ensures SameMaps(mem, after, role)
  {
    forall c | IsDir(role, c) ensures IsDir(role[f := Held], c) {}
  }

  lemma TableBytes(mem: Memory, role: Roles, d: nat, i: nat, f: nat)
    requires IsDir(role, d) && f in role && role[f] == Free && SameKeys(mem, role)
    ensures SameBytes(mem, role, WithTable(mem, d, i, f), role[f := Tab(d, i)])
    ensures SameKeys(WithTable(mem, d, i, f), role[f := Tab(d, i)])
  {
  }

  lemma NoKernelTables(data: nat)
    requires EXTMEM < data < PHYSTOP
    ensures KernelTables(data, 0) == {}
  {
  }

  lemma CopyPaid(f0: seq<nat>, mem: Memory, free: seq<nat>, d: nat, data: nat, n: nat)
    requires EXTMEM < data < PHYSTOP && n <= KERNBASE && Paid(f0, mem, free, d, CopyTables(data, n), 1 + n)
    ensures |free| + CopyCost(n) == |f0|
  {
    CopyTablesSize(data, n);
  }

  lemma KernelPages(mem: Memory, d: nat, data: nat)
    requires EXTMEM < data < PHYSTOP && KernelPart(mem, d, data, 4)
    ensures forall v :: 0 <= v < 0x10_0000 ==>
              At(mem, d, v) ==
                if 0x8_0000 <= v < 0x8_E000 then Pte(v - 0x8_0000, true, v < 0x8_0100 || 0x8_0000 + data <= v, false)
                else if 0xF_E000 <= v then Pte(v, true, true, false)
                else Pte(0, false, false, false)
  {
    hide At;
  }

  lemma PaidInFull(f0: seq<nat>, mem: Memory, free: seq<nat>, d: nat, data: nat)
    requires EXTMEM < data < PHYSTOP && Paid(f0, mem, free, d, KernelTables(data, 4), 1)
    ensures |free| + 1 + KERNEL_TABLES == |f0|
  {
    AllKernelTables(data);
  }

  /** kalloc fails in copying page i of n, or mappages once a frame is held for it, only if there are too few frames. */
  lemma TooFew(f0: seq<nat>, mem: Memory, free: seq<nat>, d: nat, data: nat, i: nat, n: nat, held: bool)
    requires EXTMEM < data < PHYSTOP && i < n <= KERNBASE
    requires Paid(f0, mem, free, d, CopyTables(data, i), if held then 2 + i else 1 + i)
    ensures free == [] && (held ==> i / ENTRIES !in TablesOf(mem, d)) ==> |f0| < CopyCost(n)
  {
    CopyTablesSize(data, i);
  }

  /** mappages has failed after n pages of entry k. */
  lemma MissingTable(f0: seq<nat>, mem: Memory, free: seq<nat>, d: nat, data: nat, k: nat, n: nat)
    requires EXTMEM < data < PHYSTOP && k < 4 && n < KmapPages(KmapTable(data)[k])
    requires var first := KmapTable(data)[k].virt;
             && Paid(f0, mem, free, d, KernelTables(data, k) + TablesFor(first, n), 1)
             && free == [] && (first + n) / ENTRIES !in TablesOf(mem, d)
    ensures |f0| < 1 + KERNEL_TABLES
  {
    hide Paid, TablesOf, KernelTables, KmapPages;
    var e := KmapTable(data)[k];
    KernelTablesWithin(data, k);
    AllKernelTables(data);
    assert (e.virt + n) / ENTRIES in TablesFor(e.virt, KmapPages(e));
    PaidOut(f0, mem, free, d, KernelTables(data, k) + TablesFor(e.virt, n), 1, (e.virt + n) / ENTRIES, KernelTables(data, 4));
  }

  lemma AbsentTable(mem: Memory, d: nat, a: nat, next: nat)
    requires !Slot(mem, d, a / ENTRIES).p && next <= (a / ENTRIES + 1) * ENTRIES
    ensures forall v :: a <= v < next ==> !At(mem, d, v).p
  {
    forall v | a <= v < next ensures v / ENTRIES == a / ENTRIES {}
  }

  lemma OneAbsent(mem: Memory, d: nat, a: nat)
    requires !At(mem, d, a).p
    ensures forall v :: a <= v < a + 1 ==> !At(mem, d, v).p
  {
  }
}
