/**
 Growing a process and writing into one that is not running: allocuvm, uva2ka and copyout on the
 page tables of Vm.
 */
module UserMemory {
  import opened Basics
  import opened VmModel
  import opened Vm

  // ---- allocuvm ----

  /** A page of zeros, on a frame that was free in role. */
  predicate Fresh(mem: Memory, role: Roles, e: Pte) {
    e.p && e.w && e.u && e.frame in role && role[e.frame] == Free && e.frame in mem && mem[e.frame] == Data(Filled(0))
  }

  /** A free frame has become a page table of d, or one of its pages from first up to a, or is held. */
  predicate Taken(r: Role, f: nat, d: nat, first: nat, a: nat, held: set<nat>) {
    TableFrameOf(r, d) || InRange(r, d, first, a) || (r == Held && f in held)
  }

  ghost predicate RolesGrown(r0: Roles, role: Roles, d: nat, first: nat, a: nat, held: set<nat>) {
    role.Keys == r0.Keys && forall f :: f in r0 ==> role[f] == r0[f] || (r0[f] == Free && Taken(role[f], f, d, first, a, held))
  }

  ghost predicate PagesGrown(m0: Memory, r0: Roles, mem: Memory, d: nat, first: nat, a: nat) {
    forall c, v :: IsDir(r0, c) && 0 <= v < TOP ==>
      if c == d && first <= v < a then Fresh(mem, r0, At(mem, c, v)) else At(mem, c, v) == At(m0, c, v)
  }

  /** d has got fresh pages from first up to a, nothing else has changed in any address space, and the frames in held are
      handed out. */
  ghost predicate Extended(m0: Memory, r0: Roles, mem: Memory, role: Roles, d: nat, first: nat, a: nat, held: set<nat>) {
    RolesGrown(r0, role, d, first, a, held) && PagesGrown(m0, r0, mem, d, first, a) && SameBytes(m0, r0, mem, role)
  }

  lemma ExtendedStart(mem: Memory, role: Roles, d: nat, first: nat)
    ensures Extended(mem, role, mem, role, d, first, first, {})
  {
  }

  /** Without new pages, only page tables have been added. */
  lemma ExtendedByNothing(m0: Memory, r0: Roles, mem: Memory, role: Roles, d: nat, first: nat)
    ensures Extended(m0, r0, mem, role, d, first, first, {}) <==> AllKept(m0, r0, mem, role) && TablesGrow(r0, role, d)
  {
  }

  /** kalloc and memset. */
  lemma ExtendedHold(m0: Memory, r0: Roles, m1: Memory, f1: seq<nat>, r1: Roles, rest: seq<nat>, d: nat, first: nat, a: nat, f: nat)
    requires Ok(m1, f1, r1) && SameKeys(m1, r1) && IsDir(r1, d) && Extended(m0, r0, m1, r1, d, first, a, {}) && first <= a <= KERNBASE
    requires f in r1 && r1[f] == Free && Ok(m1, rest, r1[f := Held])
    ensures var m2, r2 := m1[f := Data(Filled(0))], r1[f := Held];
            && Ok(m2, rest, r2) && SameKeys(m2, r2) && IsDir(r2, d) && Extended(m0, r0, m2, r2, d, first, a, {f})
  {
    var m2, r2 := m1[f := Data(Filled(0))], r1[f := Held];
    BytesOk(m1, rest, r2, f, Filled(0));
    forall c, v | IsDir(r0, c) && 0 <= v < TOP
      ensures if c == d && first <= v < a then Fresh(m2, r0, At(m2, c, v)) else At(m2, c, v) == At(m0, c, v)
    {
      assert IsDir(r1, c) && IsDir(r2, c);
      SameMapsAt(m1, m2, r2, c, v);
      if c == d && first <= v < a { PageFrame(m1, f1, r1, d, v); }
    }
  }

  /** mappages has mapped the held frame. */
  lemma ExtendedMore(m0: Memory, r0: Roles, m1: Memory, f1: seq<nat>, r1: Roles, m2: Memory, r2: Roles, d: nat, first: nat, a: nat, f: nat)
    requires Ok(m1, f1, r1) && SameKeys(m1, r1) && IsDir(r1, d) && Extended(m0, r0, m1, r1, d, first, a, {f})
    requires first <= a < KERNBASE && f in r1 && r1[f] == Held && f in r0 && r0[f] == Free && f in m2 && m2[f] == Data(Filled(0))
    requires MappedRange(m1, m2, r1, d, a, 1, f, true, true) && SameBytes(m1, r1, m2, r2) && SameKeys(m2, r2)
    requires TablesGrow(MappedRole(r1, d, a / ENTRIES, a % ENTRIES, Pte(f, true, true, true)), r2, d)
    ensures Extended(m0, r0, m2, r2, d, first, a + 1, {}) && IsDir(r2, d)
  {
    hide Ok, PagesGrown, RolesGrown, SameBytes, MappedRange, TablesGrow;
    RolesMore(r0, r1, r2, d, first, a, f);
    PagesMore(m0, r0, m1, f1, r1, m2, r2, d, first, a, f);
    BytesMore(m0, r0, m1, r1, m2, r2, d, first, a, f);
  }

  lemma RolesMore(r0: Roles, r1: Roles, r2: Roles, d: nat, first: nat, a: nat, f: nat)
    requires RolesGrown(r0, r1, d, first, a, {f}) && first <= a < KERNBASE && IsDir(r1, d)
    requires f in r0 && r0[f] == Free && r1[f] == Held
    requires TablesGrow(r1[f := User(d, a / ENTRIES, a % ENTRIES)], r2, d)
    ensures RolesGrown(r0, r2, d, first, a + 1, {}) && IsDir(r2, d)
  {
    forall g | g in r1 && g != f ensures r2[g] == r1[g] || (r1[g] == Free && TableFrameOf(r2[g], d)) {}
  }

  lemma BytesMore(m0: Memory, r0: Roles, m1: Memory, r1: Roles, m2: Memory, r2: Roles, d: nat, first: nat, a: nat, f: nat)
    requires RolesGrown(r0, r1, d, first, a, {f}) && f in r0 && r0[f] == Free
    requires SameBytes(m0, r0, m1, r1) && SameBytes(m1, r1, m2, r2) && SameKeys(m1, r1)
    requires TablesGrow(r1[f := User(d, a / ENTRIES, a % ENTRIES)], r2, d)
    ensures SameBytes(m0, r0, m2, r2)
  {
    forall g | g in r1 && g != f ensures r2[g] == r1[g] || (r1[g] == Free && TableFrameOf(r2[g], d)) {}
  }

  lemma PagesMore(m0: Memory, r0: Roles, m1: Memory, f1: seq<nat>, r1: Roles, m2: Memory, r2: Roles, d: nat, first: nat, a: nat, f: nat)
    requires Ok(m1, f1, r1) && SameKeys(m2, r2) && IsDir(r1, d) && RolesGrown(r0, r1, d, first, a, {f}) && SameKeys(m1, r1)
    requires PagesGrown(m0, r0, m1, d, first, a) && MappedRange(m1, m2, r1, d, a, 1, f, true, true) && SameBytes(m1, r1, m2, r2)
    requires first <= a < KERNBASE && f in r0 && r0[f] == Free && f in m2 && m2[f] == Data(Filled(0))
    requires TablesGrow(r1[f := User(d, a / ENTRIES, a % ENTRIES)], r2, d) && f in r1 && r1[f] == Held
    ensures PagesGrown(m0, r0, m2, d, first, a + 1)
  {
    hide Ok, At;
    forall c, v | IsDir(r0, c) && 0 <= v < TOP
      ensures if c == d && first <= v < a + 1 then Fresh(m2, r0, At(m2, c, v)) else At(m2, c, v) == At(m0, c, v)
    {
      assert IsDir(r1, c);
      if c == d && first <= v < a {
        PageFrame(m1, f1, r1, d, v);
        var g := At(m1, d, v).frame;
        assert r2[g] == r1[g];
      }
    }
  }

  /** deallocuvm takes back what has been added, except page tables. */
  lemma ExtendedBack(m0: Memory, f0: seq<nat>, r0: Roles, m1: Memory, r1: Roles, m2: Memory, r2: Roles,
                     d: nat, first: nat, a: nat, end: nat, held: set<nat>)
    requires Ok(m0, f0, r0) && SameKeys(m1, r1) && SameKeys(m2, r2) && IsDir(r0, d) && Extended(m0, r0, m1, r1, d, first, a, held)
    requires first <= a <= end <= KERNBASE && forall v :: first <= v < KERNBASE ==> !At(m0, d, v).p
    requires Cleared(m1, r1, m2, r2, d, first, end)
    ensures Extended(m0, r0, m2, r2, d, first, first, held)
  {
    forall f | f in r0 ensures !InRange(r0[f], d, first, end) {
      if r0[f].User? { UserMapped(m0, f0, r0, f); }
    }
    forall c, v | IsDir(r0, c) && 0 <= v < TOP ensures At(m2, c, v) == At(m0, c, v) {
      assert IsDir(r1, c);
      AtAbsent(m0, d, v);
    }
  }

  /** kfree of the frame that could not be mapped. */
  lemma ExtendedFree(m0: Memory, r0: Roles, m1: Memory, r1: Roles, m2: Memory, r2: Roles, d: nat, first: nat, f: nat)
    requires Extended(m0, r0, m1, r1, d, first, first, {f}) && SameKeys(m1, r1)
    requires f in r1 && r1[f] == Held && f in r0 && r0[f] == Free
    requires r2 == r1[f := Free] && SameMaps(m1, m2, r1) && m2 == m1[f := Data(Filled(1))]
    ensures Extended(m0, r0, m2, r2, d, first, first, {})
  {
    forall c, v | IsDir(r0, c) && 0 <= v < TOP ensures At(m2, c, v) == At(m0, c, v) {
      assert IsDir(r1, c);
      SameMapsAt(m1, m2, r1, c, v);
    }
  }

  /** The frames that n pages from first take: their own, and those of the page tables that are missing. */
  ghost function GrowCost(mem: Memory, d: nat, first: nat, n: nat): nat { n + |TablesFor(first, n) - TablesOf(mem, d)| }

  /** Of the frames that were free in f0, growing d from first up to a has taken its cost, and h more are held. */
  ghost predicate Afforded(m0: Memory, f0: seq<nat>, mem: Memory, free: seq<nat>, d: nat, first: nat, a: nat, h: nat)
    requires first <= a
  {
    TablesOf(mem, d) == TablesOf(m0, d) + TablesFor(first, a - first) && |free| + GrowCost(m0, d, first, a - first) + h == |f0|
  }

  lemma AffordedStart(mem: Memory, free: seq<nat>, d: nat, first: nat)
    ensures Afforded(mem, free, mem, free, d, first, first, 0)
  {
    TablesForMore(first, 0);
    hide TablesFor, TablesOf;
    assert {} - TablesOf(mem, d) == {};
  }

  lemma AffordedHold(m0: Memory, f0: seq<nat>, mem: Memory, free: seq<nat>, d: nat, first: nat, a: nat, f: nat, c: Content)
    requires first <= a && Afforded(m0, f0, mem, free, d, first, a, 0) && free != [] && f != d
    ensures Afforded(m0, f0, mem[f := c], free[1..], d, first, a, 1)
  {
    assert TablesOf(mem[f := c], d) == TablesOf(mem, d);
  }

  lemma CostStep(mem: Memory, d: nat, first: nat, n: nat)
    ensures var t, i := TablesOf(mem, d) + TablesFor(first, n), (first + n) / ENTRIES;
            GrowCost(mem, d, first, n + 1) == GrowCost(mem, d, first, n) + if i in t then 1 else 2
  {
    TablesForMore(first, n);
    hide TablesFor, TablesOf;
    var s, x, i := TablesOf(mem, d), TablesFor(first, n), (first + n) / ENTRIES;
    if i in s + x {
      assert x + {i} - s == x - s;
    } else {
      assert x + {i} - s == (x - s) + {i};
    }
  }

  lemma AffordedMore(m0: Memory, f0: seq<nat>, m1: Memory, f1: seq<nat>, m2: Memory, f2: seq<nat>, d: nat, first: nat, a: nat)
    requires first <= a && Afforded(m0, f0, m1, f1, d, first, a, 1) && Spent(m1, f1, m2, f2, d, {a / ENTRIES})
    ensures Afforded(m0, f0, m2, f2, d, first, a + 1, 0)
  {
    hide TablesFor, TablesOf, GrowCost;
    CostStep(m0, d, first, a - first);
    TablesForMore(first, a - first);
    OneTableMore(TablesOf(m0, d), TablesFor(first, a - first), a / ENTRIES);
  }

  lemma OneTableMore(t: set<nat>, x: set<nat>, i: nat)
    ensures t + x + {i} == t + (x + {i})
    ensures |t + x + {i}| == |t + x| + if i in t + x then 0 else 1
  {
    if i in t + x { assert t + x + {i} == t + x; }
  }

  lemma {:induction false} CostMonotone(mem: Memory, d: nat, first: nat, k: nat, n: nat)
    requires k <= n
    ensures GrowCost(mem, d, first, k) <= GrowCost(mem, d, first, n)
    decreases n
  {
    hide GrowCost, TablesFor, TablesOf;
    if k < n {
      CostMonotone(mem, d, first, k, n - 1);
      CostStep(mem, d, first, n - 1);
    }
  }

  /** kalloc fails at page a, or mappages once a frame is held for it, only if there are too few frames. */
  lemma Unaffordable(m0: Memory, f0: seq<nat>, mem: Memory, free: seq<nat>, d: nat, first: nat, a: nat, end: nat, held: bool)
    requires first <= a < end && Afforded(m0, f0, mem, free, d, first, a, if held then 1 else 0)
    ensures free == [] && (held ==> a / ENTRIES !in TablesOf(mem, d)) ==> |f0| < GrowCost(m0, d, first, end - first)
  {
    hide GrowCost, TablesFor, TablesOf;
    CostStep(m0, d, first, a - first);
    CostMonotone(m0, d, first, a - first + 1, end - first);
  }

  /** The failure path of allocuvm at page a. */
  method TakeBack(m: Machine, d: nat, oldsz: nat, newsz: nat, a: nat, held: Option<nat>, ghost m0: Memory, ghost f0: seq<nat>, ghost r0: Roles)
    requires m.Valid() && IsDir(m.role, d) && Ok(m0, f0, r0) && IsDir(r0, d) && RoundUp(oldsz) <= a < RoundUp(newsz) <= KERNBASE
    requires forall v :: RoundUp(oldsz) <= v < KERNBASE ==> !At(m0, d, v).p
    requires held.Some? ==> held.value in m.role && m.role[held.value] == Held && held.value in r0 && r0[held.value] == Free
    requires Extended(m0, r0, m.mem, m.role, d, RoundUp(oldsz), a, if held.Some? then {held.value} else {})
    modifies m
    ensures m.Valid() && AllKept(m0, r0, m.mem, m.role) && TablesGrow(r0, m.role, d)
    ensures TablesOf(m.mem, d) == old(TablesOf(m.mem, d))
  {
    hide Ok, At, Extended, Cleared, AllKept, TablesGrow, SameMaps, TablesOf;
    ghost var f1 := m.free;
    ghost var m1, r1 := m.mem, m.role;
    ghost var first, frames := RoundUp(oldsz), if held.Some? then {held.value} else {};
    var _ := m.Deallocuvm(d, newsz, oldsz);
    ghost var m2, r2 := m.mem, m.role;
    ExtendedBack(m0, f0, r0, m1, r1, m2, r2, d, first, a, RoundUp(newsz), frames);
    if held.Some? {
      HeldStays(m1, r1, m2, r2, d, first, RoundUp(newsz), held.value);
      m.Kfree(held.value);
      ExtendedFree(m0, r0, m2, r2, m.mem, m.role, d, first, held.value);
    }
    ExtendedByNothing(m0, r0, m.mem, m.role, d, first);
    TablesStay(m1, f1, r1, m2, r2, m.mem, m.free, m.role, d, first, RoundUp(newsz), frames);
  }

  /** Neither deallocuvm nor kfree takes a page table away. */
  lemma TablesStay(m1: Memory, f1: seq<nat>, r1: Roles, m2: Memory, r2: Roles, m3: Memory, f3: seq<nat>, r3: Roles,
                   d: nat, lo: nat, hi: nat, held: set<nat>)
    requires Ok(m1, f1, r1) && Ok(m3, f3, r3) && IsDir(r1, d) && Cleared(m1, r1, m2, r2, d, lo, hi)
    requires r3.Keys == r2.Keys && forall f :: f in r2 ==> r3[f] == if f in held then Free else r2[f]
    requires forall f :: f in held ==> f in r1 && r1[f] == Held
    ensures TablesOf(m3, d) == TablesOf(m1, d)
  {
    assert forall f :: f in r1 ==> (TableFrameOf(r1[f], d) <==> TableFrameOf(r3[f], d));
    assert TableFrames(r3, d) == TableFrames(r1, d);
    hide Ok, Cleared, TablesOf;
    TablesByFrames(m1, f1, r1, m3, f3, r3, d);
  }

  lemma HeldStays(m1: Memory, r1: Roles, m2: Memory, r2: Roles, d: nat, lo: nat, hi: nat, f: nat)
    requires Cleared(m1, r1, m2, r2, d, lo, hi) && f in r1 && r1[f] == Held
    ensures f in r2 && r2[f] == Held
  {
  }

  /** From m0 the first n pages have been mapped and taken back, and page n was out of reach: what is left behind are the
      page tables that those n pages were missing, each on a frame that is lost to kalloc. */
  ghost predicate LeftBehind(m0: Memory, f0: seq<nat>, r0: Roles, mem: Memory, free: seq<nat>, role: Roles, d: nat, first: nat, n: nat) {
    && AllKept(m0, r0, mem, role) && TablesGrow(r0, role, d)
    && TablesOf(mem, d) == TablesOf(m0, d) + TablesFor(first, n)
    && |free| + |TablesFor(first, n) - TablesOf(m0, d)| == |f0|
    && (role == r0 <==> TablesFor(first, n) <= TablesOf(m0, d))
    && GrowCost(m0, d, first, n) <= |f0| < GrowCost(m0, d, first, n + 1)
  }

  lemma LeavesBehind(m0: Memory, f0: seq<nat>, r0: Roles, m1: Memory, f1: seq<nat>, mem: Memory, free: seq<nat>, role: Roles,
                     d: nat, first: nat, a: nat, h: nat)
    requires Ok(m0, f0, r0) && Ok(mem, free, role) && IsDir(r0, d) && first <= a
    requires AllKept(m0, r0, mem, role) && TablesGrow(r0, role, d)
    requires Afforded(m0, f0, m1, f1, d, first, a, h) && TablesOf(mem, d) == TablesOf(m1, d)
    requires |f0| < GrowCost(m0, d, first, a + 1 - first)
    ensures LeftBehind(m0, f0, r0, mem, free, role, d, first, a - first)
  {
    FramesLost(m0, f0, r0, mem, free, role, d);
    hide Ok, AllKept, TablesGrow, TablesOf, TablesFor;
    var t, x := TablesOf(m0, d), TablesFor(first, a - first);
    assert t + x == t + (x - t) && t !! (x - t);
    if x <= t { assert t + x == t; } else { var i :| i in x && i !in t; assert i in t + x; }
  }

  /** How many pages were reached follows from the number of free frames. */
  lemma ReachedIsUnique(m0: Memory, d: nat, first: nat, free: nat, k: nat, n: nat)
    requires GrowCost(m0, d, first, k) <= free < GrowCost(m0, d, first, k + 1)
    requires GrowCost(m0, d, first, n) <= free < GrowCost(m0, d, first, n + 1)
    ensures k == n
  {
    hide GrowCost;
    if k < n { CostMonotone(m0, d, first, k + 1, n); }
    if n < k { CostMonotone(m0, d, first, n + 1, k); }
  }

  /** With two free frames and no page table for the new pages, one page is reached and its page table is lost. */
  lemma TwoFramesLoseOne(m0: Memory, f0: seq<nat>, r0: Roles, mem: Memory, free: seq<nat>, role: Roles, d: nat, first: nat, n: nat)
    requires LeftBehind(m0, f0, r0, mem, free, role, d, first, n)
    requires |f0| == 2 && first / ENTRIES !in TablesOf(m0, d)
    ensures n == 1 && |free| == 1 && role != r0
  {
    NoPagesCost(m0, d, first);
    TablesForMore(first, 0);
    hide TablesOf, TablesFor, GrowCost, AllKept, TablesGrow;
    CostStep(m0, d, first, 0);
    CostStep(m0, d, first, 1);
    assert GrowCost(m0, d, first, 1) == 2;
    ReachedIsUnique(m0, d, first, 2, 1, n);
    assert first / ENTRIES in TablesFor(first, 1);
  }

  lemma AllFree(mem: Memory, free: seq<nat>, role: Roles, lo: nat, hi: nat)
    requires Ok(mem, free, role) && lo <= hi && (forall f :: f in role <==> lo <= f < hi) && forall f :: f in role ==> role[f] == Free
    ensures |free| == hi - lo
  {
    FreeSize(free, role);
    IntervalSize(lo, hi);
    assert forall f: nat :: f in FreeFrames(role) <==> f < hi && AtLeast(f, lo);
    assert FreeFrames(role) == Interval(lo, hi);
  }

  /** After setupkvm there is no user page and no page table for one, so that two pages take three frames. */
  lemma FreshSpace(f0: seq<nat>, mem: Memory, free: seq<nat>, d: nat, data: nat)
    requires EXTMEM < data < PHYSTOP && Paid(f0, mem, free, d, KernelTables(data, 4), 1) && KernelPart(mem, d, data, 4)
    ensures |free| + 1 + KERNEL_TABLES == |f0| && 0 !in TablesOf(mem, d) && GrowCost(mem, d, 0, 2) >= 3
    ensures forall v :: 0 <= v < KERNBASE ==> !At(mem, d, v).p
  {
    NoTableAt0(f0, mem, free, d, data);
    NoUserPage(mem, d, data);
    PaidInFull(f0, mem, free, d, data);
    hide *;
    TwoPagesCost(mem, d);
  }

  lemma TwoPagesCost(mem: Memory, d: nat)
    requires 0 !in TablesOf(mem, d)
    ensures GrowCost(mem, d, 0, 2) >= 3
  {
    hide TablesOf, GrowCost, TablesFor;
    NoPagesCost(mem, d, 0);
    CostStep(mem, d, 0, 0);
    CostStep(mem, d, 0, 1);
  }

  lemma NoTableAt0(f0: seq<nat>, mem: Memory, free: seq<nat>, d: nat, data: nat)
    requires EXTMEM < data < PHYSTOP && Paid(f0, mem, free, d, KernelTables(data, 4), 1)
    ensures 0 !in TablesOf(mem, d)
  {
    AllKernelTables(data);
    hide KernelTables, TablesOf;
  }

  lemma NoUserPage(mem: Memory, d: nat, data: nat)
    requires KernelPart(mem, d, data, 4)
    ensures forall v :: 0 <= v < KERNBASE ==> !At(mem, d, v).p
  {
    hide At;
  }

  lemma NoPagesCost(mem: Memory, d: nat, first: nat)
    ensures TablesFor(first, 0) == {} && GrowCost(mem, d, first, 0) == 0
  {
    TablesForMore(first, 0);
    hide TablesFor, TablesOf;
    assert {} - TablesOf(mem, d) == {};
  }

  /** Such an input: right after setupkvm on 67 frames, growing from nothing to two pages. */
  method LosingRequest(data: nat) returns (r: nat, ghost before: nat, ghost after: nat)
    requires EXTMEM < data < PHYSTOP
    ensures r == 0 && before == 2 && after == 1
  {
    hide LeftBehind, Ok, GrowCost, AllKept, Grown, Extended, Paid, KernelPart, KernelTables;
    var m := new Machine(1, 68);
    AllFree(m.mem, m.free, m.role, 1, 68);
    ghost var f0 := m.free;
    var dir := m.Setupkvm(data);
    var d := dir.value;
    FreshSpace(f0, m.mem, m.free, d, data);
    before := |m.free|;
    ghost var mem, free, role := m.mem, m.free, m.role;
    ghost var ok, n;
    r, ok, n := Allocuvm(m, d, 0, 2 * PGSIZE);
    TwoFramesLoseOne(mem, free, role, m.mem, m.free, m.role, d, 0, n);
    after := |m.free|;
  }

  /** allocuvm: the process gets pages of zeros on fresh frames up to its new size; or, exactly when the frames do not
      suffice, no page at all, and what is lost to page tables is known exactly. */
  method Allocuvm(m: Machine, d: nat, oldsz: nat, newsz: nat) returns (r: nat, ghost ok: bool, ghost n: nat)
    requires m.Valid() && IsDir(m.role, d)
    requires forall v :: RoundUp(oldsz) <= v < KERNBASE ==> !At(m.mem, d, v).p
    modifies m
    ensures m.Valid()
    ensures newsz >= KERNBASE * PGSIZE || newsz < oldsz ==> m.mem == old(m.mem) && m.role == old(m.role) && m.free == old(m.free)
    ensures r == if newsz >= KERNBASE * PGSIZE then 0 else if newsz < oldsz then oldsz else if ok then newsz else 0
    ensures oldsz <= newsz < KERNBASE * PGSIZE && ok ==>
              Extended(old(m.mem), old(m.role), m.mem, m.role, d, RoundUp(oldsz), RoundUp(newsz), {})
    ensures oldsz <= newsz < KERNBASE * PGSIZE && !ok ==>
              LeftBehind(old(m.mem), old(m.free), old(m.role), m.mem, m.free, m.role, d, RoundUp(oldsz), n)
    ensures oldsz <= newsz < KERNBASE * PGSIZE ==>
              (ok <==> |old(m.free)| >= GrowCost(old(m.mem), d, RoundUp(oldsz), RoundUp(newsz) - RoundUp(oldsz)))
  {
    hide Afforded, GrowCost, TablesFor, TablesOf, Spent;
    hide Ok, At, Extended, AllKept, TablesGrow, SameBytes, MappedRange, MappedRole;
    hide LeftBehind;
    ok, n := true, 0;
    if newsz >= KERNBASE * PGSIZE { return 0, false, 0; }
    if newsz < oldsz { return oldsz, false, 0; }
    ghost var m0, f0, r0 := m.mem, m.free, m.role;
    ghost var first := RoundUp(oldsz);
    var a := RoundUp(oldsz);
    ExtendedStart(m0, r0, d, first);
    AffordedStart(m0, f0, d, first);
    while a < RoundUp(newsz)
      invariant first <= a <= RoundUp(newsz) <= KERNBASE && m.Valid() && IsDir(m.role, d)
      invariant Extended(m0, r0, m.mem, m.role, d, first, a, {}) && Afforded(m0, f0, m.mem, m.free, d, first, a, 0)
    {
      ghost var m1, f1, r1 := m.mem, m.free, m.role;
      Unaffordable(m0, f0, m1, f1, d, first, a, RoundUp(newsz), false);
      var f := m.Kalloc();
      if f.None? {
        Unaffordable(m0, f0, m1, f1, d, first, a, a + 1, false);
        TakeBack(m, d, oldsz, newsz, a, None, m0, f0, r0);
        LeavesBehind(m0, f0, r0, m1, f1, m.mem, m.free, m.role, d, first, a, 0);
        return 0, false, a - first;
      }
      WasFree(m0, r0, m1, r1, d, first, a, f.value);
      ExtendedHold(m0, r0, m1, f1, r1, m.free, d, first, a, f.value);
      m.mem := m.mem[f.value := Data(Filled(0))];
      ghost var m2, f2, r2 := m.mem, m.free, m.role;
      AffordedHold(m0, f0, m1, f1, d, first, a, f.value, Data(Filled(0)));
      Unaffordable(m0, f0, m2, f2, d, first, a, RoundUp(newsz), true);
      NotYet(m0, r0, m2, r2, d, first, a, {f.value});
      var mapped := m.MapOne(d, a, f.value, true, true);
      if !mapped {
        Unaffordable(m0, f0, m2, f2, d, first, a, a + 1, true);
        TakeBack(m, d, oldsz, newsz, a, f, m0, f0, r0);
        LeavesBehind(m0, f0, r0, m2, f2, m.mem, m.free, m.role, d, first, a, 1);
        return 0, false, a - first;
      }
      AffordedMore(m0, f0, m2, f2, m.mem, m.free, d, first, a);
      ExtendedMore(m0, r0, m2, f2, r2, m.mem, m.role, d, first, a, f.value);
      a := a + 1;
    }
    Affordable(m0, f0, m.mem, m.free, d, first, a);
    r := newsz;
  }

  lemma Affordable(m0: Memory, f0: seq<nat>, mem: Memory, free: seq<nat>, d: nat, first: nat, a: nat)
    requires first <= a && Afforded(m0, f0, mem, free, d, first, a, 0)
    ensures GrowCost(m0, d, first, a - first) <= |f0|
  {
  }

  lemma WasFree(m0: Memory, r0: Roles, mem: Memory, role: Roles, d: nat, first: nat, a: nat, f: nat)
    requires Extended(m0, r0, mem, role, d, first, a, {}) && f in role && role[f] == Free
    ensures f in r0 && r0[f] == Free
  {
  }

  lemma NotYet(m0: Memory, r0: Roles, mem: Memory, role: Roles, d: nat, first: nat, a: nat, held: set<nat>)
    requires Extended(m0, r0, mem, role, d, first, a, held) && IsDir(r0, d) && first <= a < TOP
    ensures At(mem, d, a) == At(m0, d, a)
  {
  }

  // ---- copyout ----

  /** The byte that directory d shows at user address x. */
  function ByteAt(mem: Memory, d: nat, x: nat): Option<byte> {
    var e := At(mem, d, x / PGSIZE);
    if e.p && e.frame in mem && mem[e.frame].Data? then Some(mem[e.frame].bytes[x % PGSIZE]) else None
  }

  predicate Accessible(mem: Memory, d: nat, v: nat) { At(mem, d, v).p && At(mem, d, v).u }

  /** Refused: a page that is not the user's.  Wild: uva2ka follows the null pointer of an absent page table. */
  datatype CopyResult = Done | Refused | Wild

  /** src has been written at address va, and no other byte below KERNBASE has changed. */
  ghost predicate Shows(m0: Memory, mem: Memory, d: nat, va: nat, src: seq<byte>) {
    forall x :: 0 <= x < KERNBASE * PGSIZE ==>
      ByteAt(mem, d, x) == if va <= x < va + |src| then Some(src[x - va]) else ByteAt(m0, d, x)
  }

  /** Every frame but the user pages of d is as before. */
  ghost predicate OthersUntouched(m0: Memory, mem: Memory, role: Roles, d: nat) {
    mem.Keys == m0.Keys && forall f :: f in role && f in m0 && !(role[f].User? && role[f].d == d) ==> mem[f] == m0[f]
  }

  function Spliced(b: Page, off: nat, s: seq<byte>): Page
    requires off + |s| <= PGSIZE
  {
    b[..off] + s + b[off + |s|..]
  }

  lemma SplicedAt(b: Page, off: nat, s: seq<byte>, k: nat)
    requires off + |s| <= PGSIZE && k < PGSIZE
    ensures Spliced(b, off, s)[k] == if off <= k < off + |s| then s[k - off] else b[k]
  {
  }

  /** memmove into the frame of page v. */
  lemma MoveInto(mem: Memory, free: seq<nat>, role: Roles, d: nat, v: nat, off: nat, s: seq<byte>)
    requires Ok(mem, free, role) && SameKeys(mem, role) && IsDir(role, d) && v < KERNBASE && At(mem, d, v).p && off + |s| <= PGSIZE
    ensures var f := At(mem, d, v).frame;
            && f in mem && mem[f].Data?
            && var after := mem[f := Data(Spliced(mem[f].bytes, off, s))];
            Ok(after, free, role) && SameMaps(mem, after, role) && OthersUntouched(mem, after, role, d)
            && Shows(mem, after, d, v * PGSIZE + off, s)
  {
    PageFrame(mem, free, role, d, v);
    var f := At(mem, d, v).frame;
    assert Placed(mem, role, f);
    var bytes := Spliced(mem[f].bytes, off, s);
    var after := mem[f := Data(bytes)];
    BytesOk(mem, free, role, f, bytes);
    forall x | 0 <= x < KERNBASE * PGSIZE
      ensures var va := v * PGSIZE + off;
              ByteAt(after, d, x) == if va <= x < va + |s| then Some(s[x - va]) else ByteAt(mem, d, x)
    {
      var u := x / PGSIZE;
      SameMapsAt(mem, after, role, d, u);
      SplicedAt(mem[f].bytes, off, s, x % PGSIZE);
      if u != v && At(mem, d, u).p { PageFrame(mem, free, role, d, u); }
    }
  }

  lemma ShowsNothing(mem: Memory, role: Roles, d: nat, va: nat)
    ensures Shows(mem, mem, d, va, []) && OthersUntouched(mem, mem, role, d) && SameMaps(mem, mem, role)
  {
  }

  lemma ShowsMore(m0: Memory, m1: Memory, m2: Memory, role: Roles, d: nat, va: nat, s: seq<byte>, t: seq<byte>)
    requires Shows(m0, m1, d, va, s) && OthersUntouched(m0, m1, role, d) && SameMaps(m0, m1, role)
    requires Shows(m1, m2, d, va + |s|, t) && OthersUntouched(m1, m2, role, d) && SameMaps(m1, m2, role)
    ensures Shows(m0, m2, d, va, s + t) && OthersUntouched(m0, m2, role, d) && SameMaps(m0, m2, role)
  {
    hide Lookup, ByteAt;
  }

  /** uva2ka for page v: the frame to write to. */
  method Uva2ka(m: Machine, d: nat, v: nat) returns (r: Option<nat>, present: bool)
    requires m.Valid() && IsDir(m.role, d) && v < TOP
    modifies m
    ensures m.Valid() && m.mem == old(m.mem) && m.role == old(m.role) && m.free == old(m.free)
    ensures present <==> Slot(m.mem, d, v / ENTRIES).p
    ensures r == if Accessible(m.mem, d, v) then Some(At(m.mem, d, v).frame) else None
  {
    present := m.Walk(d, v / ENTRIES, false);
    var e := At(m.mem, d, v);
    r := if present && e.p && e.u then Some(e.frame) else None;
  }

  /** The directory that setupkvm makes has no page table for user page 0, and shows the user nothing of the kernel's part. */
  lemma NothingAccessible(f0: seq<nat>, mem: Memory, free: seq<nat>, d: nat, data: nat)
    requires EXTMEM < data < PHYSTOP && Paid(f0, mem, free, d, KernelTables(data, 4), 1) && KernelPart(mem, d, data, 4)
    ensures !Slot(mem, d, 0).p && forall v :: 0 <= v < TOP ==> !Accessible(mem, d, v)
  {
    NoTableAt0(f0, mem, free, d, data);
    assert forall v :: 0 <= v < TOP ==> !KernelPte(data, v).u;
    hide At, KernelPte;
  }

  /** An input for which copyout follows a null pointer: right after setupkvm, one byte to address 0. */
  method WildCopy(data: nat) returns (r: CopyResult)
    requires EXTMEM < data < PHYSTOP
    ensures r == Wild
  {
    hide Ok, Grown, AllKept, Paid, KernelPart, KernelTables, Shows, At;
    var m := new Machine(1, 66);
    AllFree(m.mem, m.free, m.role, 1, 66);
    ghost var f0 := m.free;
    var dir := m.Setupkvm(data);
    var d := dir.value;
    NothingAccessible(f0, m.mem, m.free, d, data);
    ghost var mem := m.mem;
    assert !Accessible(mem, d, 0 / PGSIZE);
    ghost var k;
    r, k := Copyout(m, d, 0, [7]);
    assert m.mem[d] == mem[d];
  }

  /** copyout: the first k bytes of src are in user memory at va, where k is all of them or ends at the first page that is
      not the user's; no other byte of this or any other process changes. */
  method Copyout(m: Machine, d: nat, va: nat, src: seq<byte>) returns (r: CopyResult, ghost k: nat)
    requires m.Valid() && IsDir(m.role, d) && va < TOP * PGSIZE
    requires forall v :: KERNBASE <= v < TOP ==> !Accessible(m.mem, d, v)
    modifies m
    ensures m.Valid() && m.role == old(m.role) && m.free == old(m.free) && k <= |src|
    ensures Shows(old(m.mem), m.mem, d, va, src[..k])
    ensures OthersUntouched(old(m.mem), m.mem, m.role, d) && SameMaps(old(m.mem), m.mem, m.role)
    ensures r == Done <==> k == |src|
    ensures forall x :: va <= x < va + k ==> Accessible(old(m.mem), d, x / PGSIZE)
    ensures r != Done ==> !Accessible(old(m.mem), d, (va + k) / PGSIZE)
    ensures r != Done ==> (r == Wild <==> !Slot(m.mem, d, (va + k) / PGSIZE / ENTRIES).p)
  {
    hide Ok, At, Shows, OthersUntouched, SameMaps, ByteAt;
    ghost var m0 := m.mem;
    k := 0;
    var a, i := va, 0;
    ShowsNothing(m0, m.role, d, va);
    assert src[..0] == [];
    while i < |src|
      invariant 0 <= i <= |src| && k == i && a == va + i && a <= TOP * PGSIZE && (i < |src| ==> a < TOP * PGSIZE)
      invariant m.Valid() && m.role == old(m.role) && m.free == old(m.free)
      invariant Shows(m0, m.mem, d, va, src[..i]) && OthersUntouched(m0, m.mem, m.role, d) && SameMaps(m0, m.mem, m.role)
      invariant forall x :: va <= x < va + i ==> Accessible(m0, d, x / PGSIZE)
      decreases |src| - i
    {
      var v := a / PGSIZE;
      SameMapsAt(m0, m.mem, m.role, d, v);
      var f, present := Uva2ka(m, d, v);
      if f.None? { return if present then Refused else Wild, k; }
      assert Accessible(m0, d, v);
      var off := a % PGSIZE;
      var n := Min(PGSIZE - off, |src| - i);
      var piece := src[i..i + n];
      ghost var m1 := m.mem;
      MoveInto(m.mem, m.free, m.role, d, v, off, piece);
      m.mem := m.mem[f.value := Data(Spliced(m.mem[f.value].bytes, off, piece))];
      ShowsMore(m0, m1, m.mem, m.role, d, va, src[..i], piece);
      assert src[..i] + piece == src[..i + n];
      i := i + n;
      k := i;
      a := a + n;
    }
    assert src[..i] == src;
    r := Done;
  }
}
