/**
 Two-level page tables as values: which frame plays which part in which address space, what the
 tables map, and what each single write to them does to both.
 */
module VmModel {
  import opened Basics

  const ENTRIES: nat := 1024
  const USER_TABLES: nat := 512  // the directory entries below KERNBASE

  function Filled(b: byte): Page { seq(4096, _ => b) }

  /** An entry of a page directory or page table: a frame and the flags PTE_P, PTE_W and PTE_U. */
  datatype Pte = Pte(frame: nat, p: bool, w: bool, u: bool)

  const ZERO: Pte := Pte(0, false, false, false)

  /** A frame used as a table, or as plain bytes. */
  datatype Content = Table(entries: seq<Pte>) | Data(bytes: Page)

  type Memory = map<nat, Content>

  function NoEntries(): Content { Table(seq(ENTRIES, _ => ZERO)) }

  /** The part a frame plays: on kalloc's list, handed out, a page directory, the page table of entry i of directory d,
      or the user page of directory d at entry j of its table i. */
  datatype Role = Free | Held | Dir | Tab(d: nat, i: nat) | User(d: nat, i: nat, j: nat)

  type Roles = map<nat, Role>

  predicate IsDir(role: Roles, d: nat) { d in role && role[d] == Dir }

  /** Entry i of the table in frame f, or ZERO if it is not present. */
  function Slot(mem: Memory, f: nat, i: nat): Pte {
    if f in mem && mem[f].Table? && i < |mem[f].entries| && mem[f].entries[i].p then mem[f].entries[i] else ZERO
  }

  /** What the directory in frame d maps at entry j of its table i, or ZERO if nothing. */
  function Lookup(mem: Memory, d: nat, i: nat, j: nat): Pte {
    if Slot(mem, d, i).p then Slot(mem, Slot(mem, d, i).frame, j) else ZERO
  }

  ghost predicate FreeList(free: seq<nat>, role: Roles) {
    && (forall k :: 0 <= k < |free| ==> free[k] in role && role[free[k]] == Free)
    && (forall k, l :: 0 <= k < l < |free| ==> free[k] != free[l])
    && (forall f :: f in role && role[f] == Free ==> f in free)
  }

  /** Each frame that plays a part is where its role says. */
  ghost predicate Placed(mem: Memory, role: Roles, f: nat)
    requires f in role
  {
    match role[f]
    case Dir => f in mem && mem[f].Table? && |mem[f].entries| == ENTRIES
    case Tab(d, i) =>
      && f in mem && mem[f].Table? && |mem[f].entries| == ENTRIES
      && IsDir(role, d) && i < ENTRIES && Slot(mem, d, i).p && Slot(mem, d, i).frame == f
    case User(d, i, j) =>
      && f in mem && mem[f].Data? && IsDir(role, d) && i < USER_TABLES && j < ENTRIES
      && Lookup(mem, d, i, j).p && Lookup(mem, d, i, j).frame == f
    case _ => f in mem
  }

  ghost predicate AllPlaced(mem: Memory, role: Roles) { forall f :: f in role ==> Placed(mem, role, f) }

  ghost predicate TableOf(mem: Memory, role: Roles, d: nat, i: nat) {
    Slot(mem, d, i).p ==> Slot(mem, d, i).frame in role && role[Slot(mem, d, i).frame] == Tab(d, i)
  }

  /** Each present entry of a directory leads to a page table of its own. */
  ghost predicate Tables(mem: Memory, role: Roles) {
    forall d, i :: IsDir(role, d) && 0 <= i < ENTRIES ==> TableOf(mem, role, d, i)
  }

  ghost predicate PageOf(mem: Memory, role: Roles, d: nat, i: nat, j: nat) {
    Lookup(mem, d, i, j).p ==> Lookup(mem, d, i, j).frame in role && role[Lookup(mem, d, i, j).frame] == User(d, i, j)
  }

  /** Each mapped user page of a directory has a frame of its own. */
  ghost predicate Pages(mem: Memory, role: Roles) {
    forall d, i, j :: IsDir(role, d) && 0 <= i < USER_TABLES && 0 <= j < ENTRIES ==> PageOf(mem, role, d, i, j)
  }

  /** No frame has two uses, and none is lost: every frame is free, handed out, or where its role says. */
  ghost predicate Ok(mem: Memory, free: seq<nat>, role: Roles) {
    FreeList(free, role) && AllPlaced(mem, role) && Tables(mem, role) && Pages(mem, role)
  }

  /** The directories map the same. */
  ghost predicate SameMaps(mem: Memory, after: Memory, role: Roles) {
    forall d, i, j :: IsDir(role, d) && 0 <= i < ENTRIES && 0 <= j < ENTRIES ==> Lookup(after, d, i, j) == Lookup(mem, d, i, j)
  }

  // ---- single writes ----

  function SetSlot(mem: Memory, f: nat, i: nat, e: Pte): Memory {
    if f in mem && mem[f].Table? && i < |mem[f].entries| then mem[f := Table(mem[f].entries[i := e])] else mem
  }

  lemma SlotAfterSet(mem: Memory, f: nat, i: nat, e: Pte)
    requires f in mem && mem[f].Table? && i < |mem[f].entries|
    ensures forall g, j :: Slot(SetSlot(mem, f, i, e), g, j) == if g == f && j == i then (if e.p then e else ZERO) else Slot(mem, g, j)
  {
  }

  /** A new, empty page table for entry i of directory d, in frame f. */
  function WithTable(mem: Memory, d: nat, i: nat, f: nat): Memory {
    SetSlot(mem[f := NoEntries()], d, i, Pte(f, true, true, true))
  }

  lemma SlotsWithTable(mem: Memory, d: nat, i: nat, f: nat, g: nat, k: nat)
    requires d in mem && mem[d].Table? && i < |mem[d].entries| && f != d
    ensures Slot(WithTable(mem, d, i, f), g, k) ==
            if g == d && k == i then Pte(f, true, true, true) else if g == f then ZERO else Slot(mem, g, k)
  {
    SlotAfterSet(mem[f := NoEntries()], d, i, Pte(f, true, true, true));
  }

  lemma LookupsWithTable(mem: Memory, free: seq<nat>, role: Roles, d: nat, i: nat, f: nat, e: nat, k: nat, j: nat)
    requires Ok(mem, free, role) && IsDir(role, d) && i < ENTRIES && !Slot(mem, d, i).p && f in role && role[f] == Held
    requires IsDir(role, e) && k < ENTRIES
    ensures Lookup(WithTable(mem, d, i, f), e, k, j) == Lookup(mem, e, k, j)
  {
    assert Placed(mem, role, d) && Placed(mem, role, e) && TableOf(mem, role, e, k);
    SlotsWithTable(mem, d, i, f, e, k);
    SlotsWithTable(mem, d, i, f, f, j);
    SlotsWithTable(mem, d, i, f, Slot(mem, e, k).frame, j);
  }

  lemma WithTableOk(mem: Memory, free: seq<nat>, role: Roles, d: nat, i: nat, f: nat)
    requires Ok(mem, free, role) && IsDir(role, d) && i < ENTRIES && !Slot(mem, d, i).p && f in role && role[f] == Held
    ensures Ok(WithTable(mem, d, i, f), free, role[f := Tab(d, i)]) && SameMaps(mem, WithTable(mem, d, i, f), role)
  {
    assert Placed(mem, role, d);
    var after, role' := WithTable(mem, d, i, f), role[f := Tab(d, i)];
    forall g | g in role' ensures Placed(after, role', g) {
      assert Placed(mem, role, g);
      match role'[g] {
        case Tab(e, k) => SlotsWithTable(mem, d, i, f, e, k);
        case User(e, k, j) => LookupsWithTable(mem, free, role, d, i, f, e, k, j);
        case _ =>
      }
    }
    forall e, k | IsDir(role', e) && 0 <= k < ENTRIES ensures TableOf(after, role', e, k) {
      assert TableOf(mem, role, e, k);
      SlotsWithTable(mem, d, i, f, e, k);
    }
    forall e, k, j | IsDir(role', e) && 0 <= k < ENTRIES && 0 <= j < ENTRIES
      ensures Lookup(after, e, k, j) == Lookup(mem, e, k, j) && (k < USER_TABLES ==> PageOf(after, role', e, k, j))
    {
      LookupsWithTable(mem, free, role, d, i, f, e, k, j);
      assert k < USER_TABLES ==> PageOf(mem, role, e, k, j);
    }
  }

  /** Entry j of the page table of entry i becomes e. */
  function WithPte(mem: Memory, d: nat, i: nat, j: nat, e: Pte): Memory { SetSlot(mem, Slot(mem, d, i).frame, j, e) }

  lemma LookupsWithPte(mem: Memory, free: seq<nat>, role: Roles, d: nat, i: nat, j: nat, e: Pte, c: nat, k: nat, l: nat)
    requires Ok(mem, free, role) && IsDir(role, d) && i < ENTRIES && j < ENTRIES && Slot(mem, d, i).p && (e.p || e == ZERO)
    requires IsDir(role, c) && k < ENTRIES
    ensures Slot(WithPte(mem, d, i, j, e), c, k) == Slot(mem, c, k)
    ensures Lookup(WithPte(mem, d, i, j, e), c, k, l) == if c == d && k == i && l == j then e else Lookup(mem, c, k, l)
  {
    assert TableOf(mem, role, d, i) && TableOf(mem, role, c, k);
    assert Placed(mem, role, Slot(mem, d, i).frame);
    SlotAfterSet(mem, Slot(mem, d, i).frame, j, e);
  }

  /** Mapping the held frame e.frame as user page (i, j); or mapping anything in the kernel part. */
  function MappedRole(role: Roles, d: nat, i: nat, j: nat, e: Pte): Roles {
    if i < USER_TABLES then role[e.frame := User(d, i, j)] else role
  }

  lemma WithPteOk(mem: Memory, free: seq<nat>, role: Roles, d: nat, i: nat, j: nat, e: Pte)
    requires Ok(mem, free, role) && IsDir(role, d) && i < ENTRIES && j < ENTRIES && Slot(mem, d, i).p
    requires e.p && !Lookup(mem, d, i, j).p
    requires i < USER_TABLES ==> e.frame in role && role[e.frame] == Held && e.frame in mem && mem[e.frame].Data?
    ensures Ok(WithPte(mem, d, i, j, e), free, MappedRole(role, d, i, j, e))
  {
    var after, role' := WithPte(mem, d, i, j, e), MappedRole(role, d, i, j, e);
    assert TableOf(mem, role, d, i) && Placed(mem, role, Slot(mem, d, i).frame);
    forall c, k | IsDir(role', c) && 0 <= k < ENTRIES ensures TableOf(after, role', c, k) {
      assert TableOf(mem, role, c, k);
      LookupsWithPte(mem, free, role, d, i, j, e, c, k, 0);
    }
    forall c, k, l | IsDir(role', c) && 0 <= k < USER_TABLES && 0 <= l < ENTRIES ensures PageOf(after, role', c, k, l) {
      assert PageOf(mem, role, c, k, l);
      LookupsWithPte(mem, free, role, d, i, j, e, c, k, l);
    }
    forall g | g in role' ensures Placed(after, role', g) {
      assert Placed(mem, role, g);
      match role'[g] {
        case Tab(c, k) => LookupsWithPte(mem, free, role, d, i, j, e, c, k, 0);
        case User(c, k, l) => LookupsWithPte(mem, free, role, d, i, j, e, c, k, l);
        case _ =>
      }
    }
  }

  // ---- kalloc, kfree and plain bytes ----

  lemma KallocOk(mem: Memory, free: seq<nat>, role: Roles)
    requires Ok(mem, free, role) && |free| > 0
    ensures free[0] in role && role[free[0]] == Free && Ok(mem, free[1..], role[free[0] := Held])
  {
    var role' := role[free[0] := Held];
    forall g | g in role' ensures Placed(mem, role', g) { assert Placed(mem, role, g); }
    forall c, k | IsDir(role', c) && 0 <= k < ENTRIES ensures TableOf(mem, role', c, k) { assert TableOf(mem, role, c, k); }
    forall c, k, l | IsDir(role', c) && 0 <= k < USER_TABLES && 0 <= l < ENTRIES ensures PageOf(mem, role', c, k, l) {
      assert PageOf(mem, role, c, k, l);
    }
    forall g | g in role' && role'[g] == Free ensures g in free[1..] {
      assert g in free;
      var n :| 0 <= n < |free| && free[n] == g;
      assert free[1..][n - 1] == g;
    }
  }

  /** Overwriting a frame that is not a table with bytes. */
  lemma BytesOk(mem: Memory, free: seq<nat>, role: Roles, f: nat, b: Page)
    requires Ok(mem, free, role) && f in role && (role[f].Held? || role[f].User?)
    ensures Ok(mem[f := Data(b)], free, role) && SameMaps(mem, mem[f := Data(b)], role)
  {
    var after := mem[f := Data(b)];
    forall c, k, l | IsDir(role, c) && 0 <= k < ENTRIES
      ensures Slot(after, c, k) == Slot(mem, c, k) && Lookup(after, c, k, l) == Lookup(mem, c, k, l)
    {
      assert TableOf(mem, role, c, k);
    }
    forall g | g in role ensures Placed(after, role, g) { assert Placed(mem, role, g); }
    forall c, k | IsDir(role, c) && 0 <= k < ENTRIES ensures TableOf(after, role, c, k) { assert TableOf(mem, role, c, k); }
    forall c, k, l | IsDir(role, c) && 0 <= k < USER_TABLES && 0 <= l < ENTRIES ensures PageOf(after, role, c, k, l) {
      assert PageOf(mem, role, c, k, l);
    }
  }

  lemma KfreeOk(mem: Memory, free: seq<nat>, role: Roles, f: nat)
    requires Ok(mem, free, role) && f in role && role[f] == Held
    ensures Ok(mem[f := Data(Filled(1))], [f] + free, role[f := Free]) && SameMaps(mem, mem[f := Data(Filled(1))], role)
  {
    BytesOk(mem, free, role, f, Filled(1));
    var after, role' := mem[f := Data(Filled(1))], role[f := Free];
    forall g | g in role' ensures Placed(after, role', g) { assert Placed(after, role, g); }
    forall c, k | IsDir(role', c) && 0 <= k < ENTRIES ensures TableOf(after, role', c, k) { assert TableOf(after, role, c, k); }
    forall c, k, l | IsDir(role', c) && 0 <= k < USER_TABLES && 0 <= l < ENTRIES ensures PageOf(after, role', c, k, l) {
      assert PageOf(after, role, c, k, l);
    }
  }

  /** A held frame becomes an empty page directory. */
  lemma NewDirOk(mem: Memory, free: seq<nat>, role: Roles, f: nat)
    requires Ok(mem, free, role) && f in role && role[f] == Held
    ensures Ok(mem[f := NoEntries()], free, role[f := Dir]) && SameMaps(mem, mem[f := NoEntries()], role)
    ensures var after := mem[f := NoEntries()]; forall i: nat, j: nat :: Lookup(after, f, i, j) == ZERO
  {
    var after, role' := mem[f := NoEntries()], role[f := Dir];
    assert forall i: nat :: Slot(after, f, i) == ZERO;
    forall c, k, l | IsDir(role, c) && 0 <= k < ENTRIES
      ensures Slot(after, c, k) == Slot(mem, c, k) && Lookup(after, c, k, l) == Lookup(mem, c, k, l)
    {
      assert TableOf(mem, role, c, k);
    }
    forall g | g in role' ensures Placed(after, role', g) { assert Placed(mem, role, g); }
    forall c, k | IsDir(role', c) && 0 <= k < ENTRIES ensures TableOf(after, role', c, k) {
      assert IsDir(role, c) ==> TableOf(mem, role, c, k);
    }
    forall c, k, l | IsDir(role', c) && 0 <= k < USER_TABLES && 0 <= l < ENTRIES ensures PageOf(after, role', c, k, l) {
      assert IsDir(role, c) ==> PageOf(mem, role, c, k, l);
    }
  }

  /** A user page is unmapped; its frame is still handed out. */
  lemma ClearPteOk(mem: Memory, free: seq<nat>, role: Roles, d: nat, i: nat, j: nat)
    requires Ok(mem, free, role) && IsDir(role, d) && i < USER_TABLES && j < ENTRIES && Lookup(mem, d, i, j).p
    ensures Lookup(mem, d, i, j).frame in role
    ensures Ok(WithPte(mem, d, i, j, ZERO), free, role[Lookup(mem, d, i, j).frame := Held])
  {
    assert PageOf(mem, role, d, i, j);
    var f := Lookup(mem, d, i, j).frame;
    var after, role' := WithPte(mem, d, i, j, ZERO), role[f := Held];
    assert TableOf(mem, role, d, i) && Placed(mem, role, Slot(mem, d, i).frame) && Placed(mem, role, f);
    forall c, k | IsDir(role', c) && 0 <= k < ENTRIES ensures TableOf(after, role', c, k) {
      assert TableOf(mem, role, c, k);
      LookupsWithPte(mem, free, role, d, i, j, ZERO, c, k, 0);
    }
    forall c, k, l | IsDir(role', c) && 0 <= k < USER_TABLES && 0 <= l < ENTRIES ensures PageOf(after, role', c, k, l) {
      assert PageOf(mem, role, c, k, l);
      LookupsWithPte(mem, free, role, d, i, j, ZERO, c, k, l);
    }
    forall g | g in role' ensures Placed(after, role', g) {
      assert Placed(mem, role, g);
      match role'[g] {
        case Tab(c, k) => LookupsWithPte(mem, free, role, d, i, j, ZERO, c, k, 0);
        case User(c, k, l) => LookupsWithPte(mem, free, role, d, i, j, ZERO, c, k, l);
        case _ =>
      }
    }
  }

  // ---- letting go of a whole address space ----

  predicate TableFrameOf(r: Role, d: nat) { r.Tab? && r.d == d }

  /** The directory and page tables of d, which map no user page any more, are just handed-out frames. */
  ghost function Detached(role: Roles, d: nat): Roles {
    map f | f in role :: if f == d || TableFrameOf(role[f], d) then Held else role[f]
  }

  ghost predicate NoUserPages(mem: Memory, d: nat) {
    forall i, j :: 0 <= i < USER_TABLES && 0 <= j < ENTRIES ==> !Lookup(mem, d, i, j).p
  }

  lemma DetachedOk(mem: Memory, free: seq<nat>, role: Roles, d: nat)
    requires Ok(mem, free, role) && IsDir(role, d) && NoUserPages(mem, d)
    ensures Ok(mem, free, Detached(role, d))
  {
    var role' := Detached(role, d);
    forall g | g in role' ensures Placed(mem, role', g) { assert Placed(mem, role, g); }
    forall c, k | IsDir(role', c) && 0 <= k < ENTRIES ensures TableOf(mem, role', c, k) { assert TableOf(mem, role, c, k); }
    forall c, k, l | IsDir(role', c) && 0 <= k < USER_TABLES && 0 <= l < ENTRIES ensures PageOf(mem, role', c, k, l) {
      assert PageOf(mem, role, c, k, l);
    }
  }

  /** The frames of directory d are free, and no other frame has changed its part. */
  ghost function Released(role: Roles, d: nat): Roles {
    map f | f in role :: if f == d || TableFrameOf(role[f], d) || (role[f].User? && role[f].d == d) then Free else role[f]
  }

  /** The user pages of d from page lo up to hi. */
  predicate InRange(r: Role, d: nat, lo: nat, hi: nat) {
    r.User? && r.d == d && lo <= r.i * ENTRIES + r.j < hi
  }

  ghost function Unmapped(role: Roles, d: nat, lo: nat, hi: nat): Roles {
    map f | f in role :: if InRange(role[f], d, lo, hi) then Free else role[f]
  }

  /** Only free frames change their part, and only to become page tables of d. */
  ghost predicate TablesGrow(role: Roles, after: Roles, d: nat) {
    && role.Keys == after.Keys
    && forall f :: f in role ==> after[f] == role[f] || (role[f] == Free && TableFrameOf(after[f], d))
  }

  /** The frames that keep their part keep their bytes. */
  ghost predicate SameBytes(mem: Memory, role: Roles, after: Memory, role': Roles) {
    forall f :: f in role && f in role' && f in mem && f in after && role[f] == role'[f] && (role[f].User? || role[f].Held?) ==>
      after[f] == mem[f]
  }

  // ---- by page number ----

  /** What directory d maps page v to. */
  function At(mem: Memory, d: nat, v: nat): Pte { Lookup(mem, d, v / ENTRIES, v % ENTRIES) }

  /** A page is mapped by entry v % 1024 of the table in the frame of entry v / 1024 of the directory. */
  lemma TwoLevels(mem: Memory, free: seq<nat>, role: Roles, d: nat, v: nat)
    requires Ok(mem, free, role) && IsDir(role, d) && v < ENTRIES * ENTRIES
    ensures d in mem && mem[d].Table? && |mem[d].entries| == 1024 && v / 1024 < 1024
    ensures var pde := mem[d].entries[v / 1024];
            && (At(mem, d, v).p ==> pde.p)
            && (pde.p ==>
                  && pde.frame in mem && mem[pde.frame].Table? && |mem[pde.frame].entries| == 1024
                  && var pte := mem[pde.frame].entries[v % 1024];
                     if pte.p then At(mem, d, v) == pte else !At(mem, d, v).p)
  {
    assert Placed(mem, role, d) && TableOf(mem, role, d, v / ENTRIES);
    if Slot(mem, d, v / ENTRIES).p { assert Placed(mem, role, Slot(mem, d, v / ENTRIES).frame); }
  }

  lemma SameMapsAt(mem: Memory, after: Memory, role: Roles, d: nat, v: nat)
    requires SameMaps(mem, after, role) && IsDir(role, d) && v < ENTRIES * ENTRIES
    ensures At(after, d, v) == At(mem, d, v)
  {
  }

  /** A map update of one page is what WithPte does. */
  lemma AtWithPte(mem: Memory, free: seq<nat>, role: Roles, d: nat, v: nat, e: Pte, c: nat, u: nat)
    requires Ok(mem, free, role) && IsDir(role, d) && v < ENTRIES * ENTRIES && Slot(mem, d, v / ENTRIES).p && (e.p || e == ZERO)
    requires IsDir(role, c) && u < ENTRIES * ENTRIES
    ensures At(WithPte(mem, d, v / ENTRIES, v % ENTRIES, e), c, u) == if c == d && u == v then e else At(mem, c, u)
  {
    LookupsWithPte(mem, free, role, d, v / ENTRIES, v % ENTRIES, e, c, u / ENTRIES, u % ENTRIES);
    if u / ENTRIES == v / ENTRIES && u % ENTRIES == v % ENTRIES { assert u == v; }
  }

  /** From mem to after, pages first up to first + n of directory d have been mapped to frames from pa on, with flags w
      and u, and nothing else has changed in any directory of role. */
  ghost predicate MappedRange(mem: Memory, after: Memory, role: Roles, d: nat, first: nat, n: nat, pa: nat, w: bool, u: bool) {
    forall c, v :: IsDir(role, c) && 0 <= v < ENTRIES * ENTRIES ==>
      At(after, c, v) == if c == d && first <= v < first + n then Pte(pa + (v - first), true, w, u) else At(mem, c, v)
  }

  lemma RangeStart(mem: Memory, role: Roles, d: nat, first: nat, pa: nat, w: bool, u: bool)
    ensures MappedRange(mem, mem, role, d, first, 0, pa, w, u)
  {
  }

  lemma SameBytesTrans(m0: Memory, r0: Roles, m1: Memory, r1: Roles, m2: Memory, r2: Roles, d: nat)
    requires TablesGrow(r0, r1, d) && TablesGrow(r1, r2, d) && SameBytes(m0, r0, m1, r1) && SameBytes(m1, r1, m2, r2)
    requires m1.Keys == r1.Keys
    ensures SameBytes(m0, r0, m2, r2)
  {
  }

  lemma GrewKeeps(mem: Memory, role: Roles, after: Memory, role': Roles, d: nat, f: nat)
    requires TablesGrow(role, role', d) && SameBytes(mem, role, after, role') && SameKeys(mem, role) && SameKeys(after, role')
    ensures forall c :: IsDir(role, c) <==> IsDir(role', c)
    ensures f in role && role[f] == Held ==> f in role' && role'[f] == Held && f in after && after[f] == mem[f]
  {
  }

  ghost predicate SameKeys(mem: Memory, role: Roles) { mem.Keys == role.Keys }

  lemma MapOneRange(m0: Memory, r0: Roles, mem: Memory, free: seq<nat>, role: Roles, d: nat, a: nat, e: Pte)
    requires Ok(mem, free, role) && IsDir(role, d) && a < ENTRIES * ENTRIES && e.p && Slot(mem, d, a / ENTRIES).p
    requires SameMaps(m0, mem, r0) && TablesGrow(r0, role, d)
    ensures MappedRange(m0, WithPte(mem, d, a / ENTRIES, a % ENTRIES, e), r0, d, a, 1, e.frame, e.w, e.u)
  {
    hide Ok, WithPte, SameMaps;
    forall c, v | IsDir(r0, c) && 0 <= v < ENTRIES * ENTRIES
      ensures At(WithPte(mem, d, a / ENTRIES, a % ENTRIES, e), c, v) == if c == d && v == a then e else At(m0, c, v)
    {
      SameMapsAt(m0, mem, r0, c, v);
      AtWithPte(mem, free, role, d, a, e, c, v);
    }
  }

  lemma MapOneRoles(m0: Memory, r0: Roles, mem: Memory, role: Roles, d: nat, i: nat, j: nat, e: Pte)
    requires Slot(mem, d, i).p && TableOf(mem, role, d, i)
    requires TablesGrow(r0, role, d) && SameBytes(m0, r0, mem, role) && SameKeys(m0, r0) && SameKeys(mem, role)
    requires i < USER_TABLES ==> e.frame in r0 && r0[e.frame] == Held && m0[e.frame].Data?
    ensures var after, role' := WithPte(mem, d, i, j, e), MappedRole(role, d, i, j, e);
            && TablesGrow(MappedRole(r0, d, i, j, e), role', d) && SameBytes(m0, r0, after, role') && SameKeys(after, role')
            && (i < USER_TABLES ==> e.frame in after && after[e.frame] == m0[e.frame])
  {
  }

  /** Mapping page a once its page table is there, seen from before it was. */
  lemma MapOneOk(m0: Memory, r0: Roles, mem: Memory, free: seq<nat>, role: Roles, d: nat, a: nat, e: Pte)
    requires Ok(mem, free, role) && IsDir(role, d) && a < ENTRIES * ENTRIES && e.p && Slot(mem, d, a / ENTRIES).p && !At(mem, d, a).p
    requires SameMaps(m0, mem, r0) && TablesGrow(r0, role, d) && SameBytes(m0, r0, mem, role) && SameKeys(m0, r0) && SameKeys(mem, role)
    requires a / ENTRIES < USER_TABLES ==> e.frame in r0 && r0[e.frame] == Held && m0[e.frame].Data?
    ensures var after := WithPte(mem, d, a / ENTRIES, a % ENTRIES, e);
            var role' := MappedRole(role, d, a / ENTRIES, a % ENTRIES, e);
            && Ok(after, free, role') && MappedRange(m0, after, r0, d, a, 1, e.frame, e.w, e.u)
            && TablesGrow(MappedRole(r0, d, a / ENTRIES, a % ENTRIES, e), role', d)
            && SameBytes(m0, r0, after, role') && SameKeys(after, role')
            && (a / ENTRIES < USER_TABLES ==> e.frame in after && after[e.frame] == m0[e.frame])
  {
    var i, j := a / ENTRIES, a % ENTRIES;
    assert TableOf(mem, role, d, i);
    GrewKeeps(m0, r0, mem, role, d, e.frame);
    hide Ok, WithPte, SameMaps, TablesGrow, SameBytes, MappedRange;
    WithPteOk(mem, free, role, d, i, j, e);
    MapOneRange(m0, r0, mem, free, role, d, a, e);
    MapOneRoles(m0, r0, mem, role, d, i, j, e);
  }

  // ---- unmapping a range ----

  /** From mem to after, pages lo up to hi of directory d have been unmapped, and nothing else. */
  ghost predicate ClearedRange(mem: Memory, after: Memory, role: Roles, d: nat, lo: nat, hi: nat) {
    forall c, v :: IsDir(role, c) && 0 <= v < ENTRIES * ENTRIES ==>
      At(after, c, v) == if c == d && lo <= v < hi then ZERO else At(mem, c, v)
  }

  /** What deallocuvm has done when it gets to page a. */
  ghost predicate Cleared(m0: Memory, r0: Roles, mem: Memory, role: Roles, d: nat, lo: nat, a: nat) {
    ClearedRange(m0, mem, r0, d, lo, a) && role == Unmapped(r0, d, lo, a) && SameBytes(m0, r0, mem, role)
  }

  lemma ClearedStart(mem: Memory, role: Roles, d: nat, lo: nat)
    ensures Cleared(mem, role, mem, role, d, lo, lo)
  {
    assert Unmapped(role, d, lo, lo) == role;
  }

  lemma UserMapped(mem: Memory, free: seq<nat>, role: Roles, f: nat)
    requires Ok(mem, free, role) && f in role && role[f].User?
    ensures var v := role[f].i * ENTRIES + role[f].j; At(mem, role[f].d, v).p && At(mem, role[f].d, v).frame == f
  {
    assert Placed(mem, role, f);
    var v := role[f].i * ENTRIES + role[f].j;
    assert v / ENTRIES == role[f].i && v % ENTRIES == role[f].j;
  }

  lemma ClearedMore(m0: Memory, r0: Roles, mem: Memory, after: Memory, role: Roles, role': Roles, d: nat, lo: nat, a: nat)
    requires Cleared(m0, r0, mem, role, d, lo, a) && lo <= a && ClearedRange(mem, after, role, d, a, a + 1)
    requires SameBytes(mem, role, after, role') && mem.Keys == role.Keys == role'.Keys && after.Keys == role.Keys
    requires forall g :: g in role && role'[g] != role[g] ==> role'[g] == Free
    ensures ClearedRange(m0, after, r0, d, lo, a + 1) && SameBytes(m0, r0, after, role')
  {
    forall c | IsDir(r0, c) ensures IsDir(role, c) {}
  }

  lemma SkipTable(m0: Memory, r0: Roles, mem: Memory, free: seq<nat>, role: Roles, d: nat, lo: nat, a: nat, next: nat)
    requires Ok(mem, free, role) && IsDir(role, d) && Cleared(m0, r0, mem, role, d, lo, a) && IsDir(r0, d)
    requires lo <= a <= next <= USER_TABLES * ENTRIES && forall v :: a <= v < next ==> !At(mem, d, v).p
    ensures Cleared(m0, r0, mem, role, d, lo, next)
  {
    forall v | 0 <= v < ENTRIES * ENTRIES && a <= v < next ensures At(mem, d, v) == ZERO { AtAbsent(mem, d, v); }
    forall f | f in r0 ensures InRange(r0[f], d, lo, next) <==> InRange(r0[f], d, lo, a) {
      if role[f].User? { UserMapped(mem, free, role, f); }
    }
    assert Unmapped(r0, d, lo, next) == Unmapped(r0, d, lo, a);
  }

  lemma AtAbsent(mem: Memory, d: nat, v: nat)
    ensures !At(mem, d, v).p ==> At(mem, d, v) == ZERO
  {
  }

  /** kfree of the frame of page a, then *pte = 0. */
  function WithoutPage(mem: Memory, d: nat, a: nat): Memory {
    WithPte(mem[At(mem, d, a).frame := Data(Filled(1))], d, a / ENTRIES, a % ENTRIES, ZERO)
  }

  lemma WithoutPageOk(mem: Memory, free: seq<nat>, role: Roles, d: nat, a: nat)
    requires Ok(mem, free, role) && IsDir(role, d) && a < USER_TABLES * ENTRIES && At(mem, d, a).p
    ensures var f := At(mem, d, a).frame;
            && f in role && role[f] == User(d, a / ENTRIES, a % ENTRIES)
            && Ok(WithoutPage(mem, d, a), [f] + free, role[f := Free])
            && ClearedRange(mem, WithoutPage(mem, d, a), role, d, a, a + 1)
            && SameBytes(mem, role, WithoutPage(mem, d, a), role[f := Free])
            && (SameKeys(mem, role) ==> SameKeys(WithoutPage(mem, d, a), role[f := Free]))
  {
    var i, j, f := a / ENTRIES, a % ENTRIES, At(mem, d, a).frame;
    assert PageOf(mem, role, d, i, j) && TableOf(mem, role, d, i);
    assert Placed(mem, role, f) && Placed(mem, role, Slot(mem, d, i).frame);
    var cleared, held := WithPte(mem, d, i, j, ZERO), role[f := Held];
    ClearPteOk(mem, free, role, d, i, j);
    KfreeOk(cleared, free, held, f);
    assert cleared[f := Data(Filled(1))] == WithoutPage(mem, d, a);
    assert held[f := Free] == role[f := Free];
    forall c, v | IsDir(role, c) && 0 <= v < ENTRIES * ENTRIES
      ensures At(WithoutPage(mem, d, a), c, v) == if c == d && v == a then ZERO else At(mem, c, v)
    {
      AtWithPte(mem, free, role, d, a, ZERO, c, v);
      SameMapsAt(cleared, WithoutPage(mem, d, a), held, c, v);
    }
  }

  lemma ClearStep(m0: Memory, r0: Roles, mem: Memory, free: seq<nat>, role: Roles, d: nat, lo: nat, a: nat)
    requires Ok(mem, free, role) && SameKeys(mem, role) && IsDir(role, d) && IsDir(r0, d) && Cleared(m0, r0, mem, role, d, lo, a)
    requires lo <= a < USER_TABLES * ENTRIES && At(mem, d, a).p
    ensures var f := At(mem, d, a).frame;
            && f in role && role[f] == User(d, a / ENTRIES, a % ENTRIES)
            && Ok(WithoutPage(mem, d, a), [f] + free, role[f := Free])
            && SameKeys(WithoutPage(mem, d, a), role[f := Free])
            && Cleared(m0, r0, WithoutPage(mem, d, a), role[f := Free], d, lo, a + 1)
  {
    hide Ok, ClearedRange, SameBytes, WithoutPage, Unmapped;
    WithoutPageOk(mem, free, role, d, a);
    ClearedMore(m0, r0, mem, WithoutPage(mem, d, a), role, role[At(mem, d, a).frame := Free], d, lo, a);
    UnmappedStep(r0, mem, free, role, d, lo, a);
  }

  lemma UnmappedStep(r0: Roles, mem: Memory, free: seq<nat>, role: Roles, d: nat, lo: nat, a: nat)
    requires Ok(mem, free, role) && role == Unmapped(r0, d, lo, a) && lo <= a && At(mem, d, a).frame in role
    requires role[At(mem, d, a).frame] == User(d, a / ENTRIES, a % ENTRIES)
    ensures role[At(mem, d, a).frame := Free] == Unmapped(r0, d, lo, a + 1)
  {
    hide Ok, At;
    var f := At(mem, d, a).frame;
    forall g | g in r0 && g != f ensures InRange(r0[g], d, lo, a + 1) <==> InRange(r0[g], d, lo, a) {
      if role[g].User? { UserMapped(mem, free, role, g); }
    }
  }

  // ---- freevm ----

  /** The directory's own frame is still in use, its page tables below entry n are free. */
  ghost function Releasing(role: Roles, d: nat, n: nat): (r: Roles)
    ensures r.Keys == role.Keys
  {
    map f | f in role ::
      if f == d then Held
      else if TableFrameOf(role[f], d) then (if role[f].i < n then Free else Held)
      else role[f]
  }

  lemma ReleasingStart(mem: Memory, free: seq<nat>, role: Roles, d: nat)
    requires Ok(mem, free, role) && IsDir(role, d) && NoUserPages(mem, d)
    ensures Ok(mem, free, Releasing(role, d, 0))
  {
    DetachedOk(mem, free, role, d);
    assert Releasing(role, d, 0) == Detached(role, d);
  }

  lemma ReleasingStep(mem: Memory, free: seq<nat>, role: Roles, d: nat, i: nat)
    requires Ok(mem, free, role) && IsDir(role, d) && i < ENTRIES
    ensures var f := Slot(mem, d, i).frame;
            if Slot(mem, d, i).p then
              f in role && f != d && Releasing(role, d, i)[f] == Held && Releasing(role, d, i)[f := Free] == Releasing(role, d, i + 1)
            else Releasing(role, d, i) == Releasing(role, d, i + 1)
  {
    assert TableOf(mem, role, d, i);
    forall g | g in role && role[g] == Tab(d, i) ensures Slot(mem, d, i).p && Slot(mem, d, i).frame == g {
      assert Placed(mem, role, g);
    }
  }

  lemma ReleasingDone(m0: Memory, f0: seq<nat>, r0: Roles, role: Roles, d: nat)
    requires Ok(m0, f0, r0) && IsDir(r0, d) && role == Unmapped(r0, d, 0, USER_TABLES * ENTRIES)
    ensures d in role && Releasing(role, d, ENTRIES)[d := Free] == Released(r0, d)
  {
    forall f | f in r0 ensures Releasing(role, d, ENTRIES)[d := Free][f] == Released(r0, d)[f] {
      assert Placed(m0, r0, f);
    }
  }

  lemma AllUnmapped(mem: Memory, d: nat)
    requires forall v: nat :: v < USER_TABLES * ENTRIES ==> At(mem, d, v) == ZERO
    ensures NoUserPages(mem, d)
  {
    forall i: nat, j: nat | i < USER_TABLES && j < ENTRIES ensures !Lookup(mem, d, i, j).p {
      assert At(mem, d, i * ENTRIES + j) == ZERO;
      assert (i * ENTRIES + j) / ENTRIES == i && (i * ENTRIES + j) % ENTRIES == j;
    }
  }

  /** Directory c maps the same. */
  ghost predicate SameTables(mem: Memory, after: Memory, c: nat) {
    forall i, j :: 0 <= i < ENTRIES && 0 <= j < ENTRIES ==> Lookup(after, c, i, j) == Lookup(mem, c, i, j)
  }

  lemma ClearedAll(m0: Memory, r0: Roles, mem: Memory, role: Roles, d: nat)
    requires Cleared(m0, r0, mem, role, d, 0, USER_TABLES * ENTRIES) && IsDir(r0, d)
    ensures IsDir(role, d) && NoUserPages(mem, d)
  {
    forall v: nat | v < USER_TABLES * ENTRIES ensures At(mem, d, v) == ZERO {}
    AllUnmapped(mem, d);
  }

  /** What the loop of freevm has done when it gets to entry i. */
  ghost predicate TablesFreed(m1: Memory, r1: Roles, mem: Memory, role: Roles, d: nat, i: nat) {
    && role == Releasing(r1, d, i) && (forall k: nat :: Slot(mem, d, k) == Slot(m1, d, k))
    && (forall c :: IsDir(r1, c) && c != d ==> SameTables(m1, mem, c)) && SameBytes(m1, r1, mem, role)
  }

  lemma TablesFreedStart(mem: Memory, free: seq<nat>, role: Roles, d: nat)
    requires Ok(mem, free, role) && IsDir(role, d) && NoUserPages(mem, d)
    ensures Ok(mem, free, Releasing(role, d, 0)) && TablesFreed(mem, role, mem, Releasing(role, d, 0), d, 0)
  {
    ReleasingStart(mem, free, role, d);
  }

  lemma TablesFreedStep(m1: Memory, f1: seq<nat>, r1: Roles, mem: Memory, role: Roles, d: nat, i: nat)
    requires Ok(m1, f1, r1) && IsDir(r1, d) && i < ENTRIES && TablesFreed(m1, r1, mem, role, d, i)
    ensures !Slot(mem, d, i).p ==> TablesFreed(m1, r1, mem, role, d, i + 1)
    ensures Slot(mem, d, i).p ==>
              var f := Slot(mem, d, i).frame; var after := mem[f := Data(Filled(1))];
              && f in role && role[f] == Held
              && (SameMaps(mem, after, role) ==> TablesFreed(m1, r1, after, role[f := Free], d, i + 1))
  {
    ReleasingStep(m1, f1, r1, d, i);
    hide Ok, Releasing;
    if Slot(mem, d, i).p {
      var f := Slot(mem, d, i).frame;
      var after := mem[f := Data(Filled(1))];
      if SameMaps(mem, after, role) {
        forall c | IsDir(r1, c) && c != d ensures SameTables(m1, after, c) {
          assert SameTables(m1, mem, c) && IsDir(role, c) by { ReleasingDirs(r1, d, i, c); }
        }
        forall g | g in r1 && g != f ensures role[f := Free][g] == role[g] {}
        assert SameBytes(m1, r1, after, role[f := Free]);
      }
    }
  }

  lemma ReleasingDirs(role: Roles, d: nat, n: nat, c: nat)
    requires IsDir(role, c) && c != d
    ensures IsDir(Releasing(role, d, n), c)
  {
  }

  /** freevm from end to end: the user pages, the page tables, the directory. */
  lemma FreevmFacts(m0: Memory, f0: seq<nat>, r0: Roles, m1: Memory, r1: Roles, m2: Memory, d: nat)
    requires Ok(m0, f0, r0) && IsDir(r0, d) && Cleared(m0, r0, m1, r1, d, 0, USER_TABLES * ENTRIES)
    requires (forall c :: IsDir(r1, c) && c != d ==> SameTables(m1, m2, c)) && SameBytes(m1, r1, m2, Releasing(r1, d, ENTRIES))
    requires m1.Keys == r1.Keys && m2.Keys == r1.Keys
    ensures var r2 := Releasing(r1, d, ENTRIES);
            var m3, r3 := m2[d := Data(Filled(1))], r2[d := Free];
            && d in r2 && r2[d] == Held && r3 == Released(r0, d) && SameBytes(m0, r0, m3, r3)
            && (SameMaps(m2, m3, r2) ==> OthersKept(m0, m3, r0, d))
  {
    ReleasingDone(m0, f0, r0, r1, d);
    var r2 := Releasing(r1, d, ENTRIES);
    var m3 := m2[d := Data(Filled(1))];
    if SameMaps(m2, m3, r2) {
      forall c, v | IsDir(r0, c) && c != d && 0 <= v < ENTRIES * ENTRIES ensures At(m3, c, v) == At(m0, c, v) {
        assert IsDir(r1, c) && IsDir(r2, c) && SameTables(m1, m2, c);
        assert At(m1, c, v) == At(m0, c, v);
      }
    }
  }

  /** The directories other than d map the same. */
  ghost predicate OthersKept(mem: Memory, after: Memory, role: Roles, d: nat) {
    forall c, v :: IsDir(role, c) && c != d && 0 <= v < ENTRIES * ENTRIES ==> At(after, c, v) == At(mem, c, v)
  }

  // ---- building an address space ----

  predicate OwnedBy(r: Role, f: nat, d: nat) {
    (r.Dir? && f == d) || TableFrameOf(r, d) || (r.User? && r.d == d)
  }

  /** From role to after, only free frames have changed their part, and all of those belong to d. */
  ghost predicate Grown(role: Roles, after: Roles, d: nat) {
    role.Keys == after.Keys && forall f :: f in role ==> after[f] == role[f] || (role[f] == Free && OwnedBy(after[f], f, d))
  }

  /** Every directory of role maps the same, and the frames it has keep their bytes. */
  ghost predicate AllKept(mem: Memory, role: Roles, after: Memory, role': Roles) {
    && (forall c, v :: IsDir(role, c) && 0 <= v < ENTRIES * ENTRIES ==> At(after, c, v) == At(mem, c, v))
    && SameBytes(mem, role, after, role')
  }

  /** Letting go of what was built gives back exactly the frames that were free before. */
  lemma ReleasedGrown(mem: Memory, free: seq<nat>, role: Roles, after: Roles, d: nat)
    requires Ok(mem, free, role) && Grown(role, after, d) && d in role && role[d] == Free && IsDir(after, d)
    ensures Released(after, d) == role
  {
    forall f | f in role ensures Released(after, d)[f] == role[f] {
      assert Placed(mem, role, f);
    }
  }

  lemma GrownKeepsAll(m0: Memory, r0: Roles, m1: Memory, r1: Roles, m2: Memory, r2: Roles, d: nat)
    requires Grown(r0, r1, d) && AllKept(m0, r0, m1, r1) && SameKeys(m1, r1) && r1.Keys == r2.Keys
    requires forall f :: f in r1 && r1[f] != r2[f] ==> r1[f] == Free || r1[f] == Held || OwnedBy(r1[f], f, d)
    requires forall f :: f in r0 && r0[f] != Free ==> r2[f] == r0[f]
    requires SameBytes(m1, r1, m2, r2)
    requires forall c, v :: IsDir(r0, c) && 0 <= v < ENTRIES * ENTRIES ==> At(m2, c, v) == At(m1, c, v)
    ensures AllKept(m0, r0, m2, r2)
  {
    forall f | f in r0 && f in r2 && f in m0 && f in m2 && r0[f] == r2[f] && (r0[f].User? || r0[f].Held?) ensures m2[f] == m0[f] {
      assert r1[f] == r0[f] && f in m1;
    }
  }

  // ---- the kernel's part ----

  const KERNBASE: nat := USER_TABLES * ENTRIES     // the first kernel page
  const EXTMEM: nat := 0x100
  const PHYSTOP: nat := 0xE000
  const DEVSPACE: nat := 0xFE000

  /** What every address space maps page v to, above KERNBASE; data is the page where the kernel's data starts. */
  function KernelPte(data: nat, v: nat): Pte {
    if KERNBASE <= v < KERNBASE + PHYSTOP then Pte(v - KERNBASE, true, !(EXTMEM <= v - KERNBASE < data), false)
    else if DEVSPACE <= v < ENTRIES * ENTRIES then Pte(v, true, true, false)
    else ZERO
  }

  /** struct kmap */
  datatype Kmap = Kmap(virt: nat, physStart: nat, physEnd: nat, w: bool)

  function KmapTable(data: nat): seq<Kmap> {
    [Kmap(KERNBASE, 0, EXTMEM, true), Kmap(KERNBASE + EXTMEM, EXTMEM, data, false),
     Kmap(KERNBASE + data, data, PHYSTOP, true), Kmap(DEVSPACE, DEVSPACE, 0, true)]
  }

  /** The number of pages of an entry; the last one wraps around. */
  function KmapPages(k: Kmap): nat { (k.physEnd - k.physStart) % (ENTRIES * ENTRIES) }

  /** Where the first n entries of the table end. */
  function KmapDone(data: nat, n: nat): nat {
    if n == 0 then KERNBASE else if n == 1 then KERNBASE + EXTMEM else if n == 2 then KERNBASE + data
    else if n == 3 then KERNBASE + PHYSTOP else ENTRIES * ENTRIES
  }

  /** The first n entries are mapped, and nothing else. */
  ghost predicate KernelPart(mem: Memory, d: nat, data: nat, n: nat) {
    forall v :: 0 <= v < ENTRIES * ENTRIES ==> At(mem, d, v) == if v < KmapDone(data, n) then KernelPte(data, v) else ZERO
  }

  lemma KernelMore(mem: Memory, after: Memory, role: Roles, d: nat, data: nat, n: nat)
    requires EXTMEM < data < PHYSTOP && n < 4 && IsDir(role, d) && KernelPart(mem, d, data, n)
    ensures var k := KmapTable(data)[n];
            && KmapPages(k) > 0 && KERNBASE <= k.virt && k.virt + KmapPages(k) <= ENTRIES * ENTRIES
            && (forall v :: k.virt <= v < k.virt + KmapPages(k) ==> !At(mem, d, v).p)
            && (MappedRange(mem, after, role, d, k.virt, KmapPages(k), k.physStart, k.w, false) ==> KernelPart(after, d, data, n + 1))
  {
  }

  // ---- what the loops over them need ----

  lemma SameRoles(mem: Memory, role: Roles, d: nat)
    ensures TablesGrow(role, role, d) && SameBytes(mem, role, mem, role)
  {
  }

  lemma RangeElsewhere(mem: Memory, now: Memory, role: Roles, d: nat, first: nat, n: nat, pa: nat, w: bool, u: bool, v: nat)
    requires MappedRange(mem, now, role, d, first, n, pa, w, u) && IsDir(role, d) && v < ENTRIES * ENTRIES && v >= first + n
    ensures At(now, d, v) == At(mem, d, v)
  {
  }

  lemma RangeMore(m0: Memory, r0: Roles, m1: Memory, r1: Roles, m2: Memory, r2: Roles,
                  d: nat, first: nat, n: nat, pa: nat, w: bool, u: bool)
    requires MappedRange(m0, m1, r0, d, first, n, pa, w, u) && TablesGrow(r0, r1, d) && SameBytes(m0, r0, m1, r1)
    requires MappedRange(m1, m2, r1, d, first + n, 1, pa + n, w, u) && TablesGrow(r1, r2, d) && SameBytes(m1, r1, m2, r2)
    requires SameKeys(m1, r1)
    ensures MappedRange(m0, m2, r0, d, first, n + 1, pa, w, u) && TablesGrow(r0, r2, d) && SameBytes(m0, r0, m2, r2)
  {
    SameBytesTrans(m0, r0, m1, r1, m2, r2, d);
    forall c | IsDir(r0, c) ensures IsDir(r1, c) {}
  }

  lemma KeptStart(mem: Memory, role: Roles)
    ensures AllKept(mem, role, mem, role)
  {
  }

  lemma NewDirFacts(mem: Memory, free: seq<nat>, role: Roles, rest: seq<nat>, d: nat, data: nat)
    requires d in role && role[d] == Free && Ok(mem, rest, role[d := Held])
    ensures var after, role' := mem[d := NoEntries()], role[d := Dir];
            && Ok(after, rest, role') && Grown(role, role', d) && AllKept(mem, role, after, role') && KernelPart(after, d, data, 0)
  {
    NewDirOk(mem, rest, role[d := Held], d);
    var after := mem[d := NoEntries()];
    assert role[d := Held][d := Dir] == role[d := Dir];
    forall c, v | IsDir(role, c) && 0 <= v < ENTRIES * ENTRIES ensures At(after, c, v) == At(mem, c, v) {
      assert IsDir(role[d := Held], c);
    }
  }

  /** mappages on the directory being built. */
  lemma SetupStep(m0: Memory, f0: seq<nat>, r0: Roles, m1: Memory, r1: Roles, m2: Memory, r2: Roles,
                  d: nat, first: nat, n: nat, pa: nat, w: bool)
    requires Ok(m0, f0, r0) && d in r0 && r0[d] == Free && Grown(r0, r1, d) && AllKept(m0, r0, m1, r1) && SameKeys(m1, r1)
    requires MappedRange(m1, m2, r1, d, first, n, pa, w, false) && TablesGrow(r1, r2, d) && SameBytes(m1, r1, m2, r2)
    ensures Grown(r0, r2, d) && AllKept(m0, r0, m2, r2)
  {
    forall c, v | IsDir(r0, c) && 0 <= v < ENTRIES * ENTRIES ensures At(m2, c, v) == At(m1, c, v) {
      assert IsDir(r1, c);
    }
    GrownKeepsAll(m0, r0, m1, r1, m2, r2, d);
  }

  lemma UndoFacts(m0: Memory, f0: seq<nat>, r0: Roles, m1: Memory, r1: Roles, m2: Memory, r2: Roles, d: nat)
    requires Ok(m0, f0, r0) && d in r0 && r0[d] == Free && Grown(r0, r1, d) && AllKept(m0, r0, m1, r1) && SameKeys(m1, r1)
    requires IsDir(r1, d) && r2 == Released(r1, d) && OthersKept(m1, m2, r1, d) && SameBytes(m1, r1, m2, r2)
    ensures r2 == r0 && AllKept(m0, r0, m2, r2)
  {
    ReleasedGrown(m0, f0, r0, r1, d);
    forall c, v | IsDir(r0, c) && 0 <= v < ENTRIES * ENTRIES ensures At(m2, c, v) == At(m1, c, v) {
      assert IsDir(r1, c) && c != d;
    }
    GrownKeepsAll(m0, r0, m1, r1, m2, r2, d);
  }

  // ---- copyuvm ----

  /** Page v of d is a copy of the parent's in the old memory: the same bytes and flags. */
  ghost predicate CopyOf(m0: Memory, mem: Memory, p: nat, d: nat, v: nat) {
    var e, f := At(m0, p, v), At(mem, d, v);
    f.p && f.w == e.w && f.u == e.u && f.frame in mem && e.frame in m0 && mem[f.frame] == m0[e.frame]
  }

  /** The first n pages have been copied, the other user pages of d are unmapped, and d has the kernel's part. */
  ghost predicate Copied(m0: Memory, mem: Memory, p: nat, d: nat, n: nat, data: nat) {
    && (forall v :: 0 <= v < n ==> CopyOf(m0, mem, p, d, v))
    && (forall v :: n <= v < ENTRIES * ENTRIES ==> At(mem, d, v) == KernelPte(data, v))
  }

  lemma CopiedStart(m0: Memory, mem: Memory, p: nat, d: nat, data: nat)
    requires KernelPart(mem, d, data, 4)
    ensures Copied(m0, mem, p, d, 0, data)
  {
  }

  /** The parent's page i still has its old frame and bytes, and its copy goes to a frame of no other use. */
  lemma CopyPage(m0: Memory, f0: seq<nat>, r0: Roles, m1: Memory, f1: seq<nat>, r1: Roles, free: seq<nat>, role: Roles,
                 p: nat, d: nat, i: nat, data: nat, f: nat)
    requires Ok(m0, f0, r0) && SameKeys(m0, r0) && IsDir(r0, p) && i < KERNBASE && At(m0, p, i).p
    requires Ok(m1, f1, r1) && SameKeys(m1, r1) && IsDir(r1, d) && Grown(r0, r1, d) && AllKept(m0, r0, m1, r1)
    requires f in r1 && r1[f] == Free && role == r1[f := Held] && Ok(m1, free, role) && Copied(m0, m1, p, d, i, data)
    ensures At(m1, p, i) == At(m0, p, i) && At(m1, p, i).frame in m1 && At(m0, p, i).frame in m0 && !At(m1, d, i).p
    ensures var m2 := m1[f := m1[At(m1, p, i).frame]];
            && m2[f] == m0[At(m0, p, i).frame] && m2[f].Data? && At(m2, p, i) == At(m0, p, i) && !At(m2, d, i).p
            && Ok(m2, free, role) && SameKeys(m2, role) && SameMaps(m1, m2, r1) && SameBytes(m1, r1, m2, role)
  {
    assert At(m1, p, i) == At(m0, p, i);
    var g := At(m0, p, i).frame;
    assert PageOf(m0, r0, p, i / ENTRIES, i % ENTRIES) && Placed(m0, r0, g);
    assert r1[g] == r0[g] && m1[g] == m0[g];
    BytesOk(m1, free, role, f, m1[g].bytes);
    assert m1[f := m1[g]] == m1[f := Data(m1[g].bytes)];
    forall c | IsDir(r1, c) ensures IsDir(role, c) {}
    SameMapsAt(m1, m1[f := m1[g]], role, d, i);
    SameMapsAt(m1, m1[f := m1[g]], role, p, i);
    assert At(m1, d, i) == KernelPte(data, i);
  }

  /** mappages has failed, and the copy's frame has been freed. */
  lemma BadPage(m0: Memory, f0: seq<nat>, r0: Roles, m1: Memory, r1: Roles, m2: Memory, r2: Roles, m3: Memory, r3: Roles,
                d: nat, f: nat)
    requires Ok(m0, f0, r0) && IsDir(r1, d) && Grown(r0, r1, d) && AllKept(m0, r0, m1, r1) && SameKeys(m1, r1)
    requires f in r1 && r1[f] == Free && r2 == r1[f := Held] && r3 == r2[f := Free]
    requires SameMaps(m1, m2, r1) && SameBytes(m1, r1, m2, r2) && SameMaps(m2, m3, r2) && m3 == m2[f := Data(Filled(1))]
    requires SameKeys(m2, r2)
    ensures r3 == r1 && AllKept(m0, r0, m3, r3)
  {
    forall c, v | IsDir(r0, c) && 0 <= v < ENTRIES * ENTRIES ensures At(m3, c, v) == At(m1, c, v) {
      assert IsDir(r1, c) && IsDir(r2, c);
      SameMapsAt(m1, m2, r1, c, v);
      SameMapsAt(m2, m3, r2, c, v);
    }
    GrownKeepsAll(m0, r0, m1, r1, m3, r3, d);
  }

  lemma CopyStepCopies(m0: Memory, m1: Memory, f1: seq<nat>, r1: Roles, m2: Memory, r2: Roles, m3: Memory, r3: Roles,
                       p: nat, d: nat, i: nat, data: nat, f: nat, w: bool, u: bool)
    requires Ok(m1, f1, r1) && SameKeys(m1, r1) && IsDir(r1, d) && i < KERNBASE && Copied(m0, m1, p, d, i, data)
    requires f in r1 && r1[f] == Free && r2 == r1[f := Held] && SameMaps(m1, m2, r1) && SameBytes(m1, r1, m2, r2) && SameKeys(m2, r2)
    requires MappedRange(m2, m3, r2, d, i, 1, f, w, u) && SameBytes(m2, r2, m3, r3) && SameKeys(m3, r3)
    requires TablesGrow(r2[f := User(d, i / ENTRIES, i % ENTRIES)], r3, d)
    requires w == At(m0, p, i).w && u == At(m0, p, i).u && At(m0, p, i).frame in m0 && m3[f] == m0[At(m0, p, i).frame]
    ensures Copied(m0, m3, p, d, i + 1, data)
  {
    hide Ok;
    forall v | 0 <= v < ENTRIES * ENTRIES && v != i ensures At(m3, d, v) == At(m1, d, v) {
      SameMapsAt(m1, m2, r1, d, v);
    }
    forall v | 0 <= v < i ensures CopyOf(m0, m3, p, d, v) {
      assert CopyOf(m0, m1, p, d, v);
      PageFrame(m1, f1, r1, d, v);
      var g := At(m1, d, v).frame;
      assert r2[g] == r1[g] && r3[g] == r2[g];
    }
  }

  lemma PageFrame(mem: Memory, free: seq<nat>, role: Roles, d: nat, v: nat)
    requires Ok(mem, free, role) && IsDir(role, d) && v < KERNBASE && At(mem, d, v).p
    ensures At(mem, d, v).frame in role && role[At(mem, d, v).frame] == User(d, v / ENTRIES, v % ENTRIES)
  {
    assert PageOf(mem, role, d, v / ENTRIES, v % ENTRIES);
  }

  lemma CopyStepKept(m0: Memory, f0: seq<nat>, r0: Roles, m1: Memory, r1: Roles, m2: Memory, r2: Roles, m3: Memory, r3: Roles,
                     d: nat, i: nat, f: nat, w: bool, u: bool)
    requires Ok(m0, f0, r0) && d in r0 && r0[d] == Free && IsDir(r1, d) && Grown(r0, r1, d) && AllKept(m0, r0, m1, r1)
    requires SameKeys(m1, r1) && SameKeys(m2, r2) && SameKeys(m3, r3)
    requires f in r1 && r1[f] == Free && r2 == r1[f := Held] && SameMaps(m1, m2, r1) && SameBytes(m1, r1, m2, r2)
    requires MappedRange(m2, m3, r2, d, i, 1, f, w, u) && SameBytes(m2, r2, m3, r3)
    requires TablesGrow(r2[f := User(d, i / ENTRIES, i % ENTRIES)], r3, d)
    ensures Grown(r0, r3, d) && AllKept(m0, r0, m3, r3) && IsDir(r3, d)
  {
    hide Ok, At, SameBytes;
    MappedElsewhere(m0, r0, m1, r1, m2, r2, m3, d, i, f, w, u);
    assert forall g :: g in r1 && r1[g] != Free ==> r3[g] == r1[g];
    BytesKept(m1, r1, m2, r2, m3, r3, d, i, f);
    GrownKeepsAll(m0, r0, m1, r1, m3, r3, d);
  }

  lemma MappedElsewhere(m0: Memory, r0: Roles, m1: Memory, r1: Roles, m2: Memory, r2: Roles, m3: Memory,
                        d: nat, i: nat, f: nat, w: bool, u: bool)
    requires Grown(r0, r1, d) && d in r0 && r0[d] == Free && f in r1 && r1[f] == Free && r2 == r1[f := Held]
    requires SameMaps(m1, m2, r1) && MappedRange(m2, m3, r2, d, i, 1, f, w, u)
    ensures forall c, v :: IsDir(r0, c) && 0 <= v < ENTRIES * ENTRIES ==> At(m3, c, v) == At(m1, c, v)
  {
    hide SameMaps, At;
    forall c, v | IsDir(r0, c) && 0 <= v < ENTRIES * ENTRIES ensures At(m3, c, v) == At(m1, c, v) {
      assert IsDir(r1, c) && IsDir(r2, c);
      SameMapsAt(m1, m2, r1, c, v);
    }
  }

  lemma BytesKept(m1: Memory, r1: Roles, m2: Memory, r2: Roles, m3: Memory, r3: Roles, d: nat, i: nat, f: nat)
    requires SameKeys(m1, r1) && SameKeys(m2, r2) && SameKeys(m3, r3) && f in r1 && r1[f] == Free && r2 == r1[f := Held]
    requires SameBytes(m1, r1, m2, r2) && SameBytes(m2, r2, m3, r3)
    requires TablesGrow(r2[f := User(d, i / ENTRIES, i % ENTRIES)], r3, d)
    ensures SameBytes(m1, r1, m3, r3)
  {
    forall g | g in r1 && r1[g] != Free ensures r2[g] == r1[g] && r3[g] == r1[g] {}
  }

  lemma CopyStep(m0: Memory, f0: seq<nat>, r0: Roles, m1: Memory, f1: seq<nat>, r1: Roles, m2: Memory, r2: Roles,
                 m3: Memory, r3: Roles, p: nat, d: nat, i: nat, data: nat, f: nat)
    requires Ok(m0, f0, r0) && Ok(m1, f1, r1) && d in r0 && r0[d] == Free && IsDir(r1, d) && i < KERNBASE
    requires Grown(r0, r1, d) && AllKept(m0, r0, m1, r1) && Copied(m0, m1, p, d, i, data)
    requires SameKeys(m1, r1) && SameKeys(m2, r2) && SameKeys(m3, r3)
    requires f in r1 && r1[f] == Free && r2 == r1[f := Held] && SameMaps(m1, m2, r1) && SameBytes(m1, r1, m2, r2)
    requires At(m0, p, i).frame in m0 && f in m2 && f in m3 && m2[f] == m0[At(m0, p, i).frame] && m3[f] == m2[f]
    requires var e := At(m0, p, i); MappedRange(m2, m3, r2, d, i, 1, f, e.w, e.u)
    requires SameBytes(m2, r2, m3, r3) && TablesGrow(r2[f := User(d, i / ENTRIES, i % ENTRIES)], r3, d)
    ensures Grown(r0, r3, d) && AllKept(m0, r0, m3, r3) && Copied(m0, m3, p, d, i + 1, data) && IsDir(r3, d)
  {
    hide Ok, Grown, AllKept, Copied, SameMaps, SameBytes, MappedRange, TablesGrow;
    var e := At(m0, p, i);
    CopyStepCopies(m0, m1, f1, r1, m2, r2, m3, r3, p, d, i, data, f, e.w, e.u);
    CopyStepKept(m0, f0, r0, m1, r1, m2, r2, m3, r3, d, i, f, e.w, e.u);
  }

  // ---- how many frames it takes ----

  /** The directory entries of d that have a page table. */
  ghost function TablesOf(mem: Memory, d: nat): set<nat> { set i: nat | i < ENTRIES && Slot(mem, d, i).p }

  /** The directory entries that pages first up to first + n fall under. */
  ghost function TablesFor(first: nat, n: nat): set<nat> { set v: nat | first <= v < first + n :: v / ENTRIES }

  /** From m0 to mem directory d has got the page tables in ts, each on a frame from the free list, which has lost no others. */
  ghost predicate Spent(m0: Memory, f0: seq<nat>, mem: Memory, free: seq<nat>, d: nat, ts: set<nat>) {
    TablesOf(mem, d) == TablesOf(m0, d) + ts && |free| + |TablesOf(mem, d)| == |f0| + |TablesOf(m0, d)|
  }

  lemma SpentNothing(m0: Memory, mem: Memory, free: seq<nat>, d: nat)
    requires forall i :: 0 <= i < ENTRIES ==> Slot(mem, d, i) == Slot(m0, d, i)
    ensures Spent(m0, free, mem, free, d, {})
  {
    assert TablesOf(mem, d) == TablesOf(m0, d);
  }

  lemma SpentOne(mem: Memory, free: seq<nat>, d: nat, i: nat, f: nat)
    requires |free| > 0 && d in mem && mem[d].Table? && i < |mem[d].entries| <= ENTRIES && f != d && !Slot(mem, d, i).p
    ensures Spent(mem, free, WithTable(mem, d, i, f), free[1..], d, {i})
  {
    var after := WithTable(mem, d, i, f);
    forall k: nat ensures k in TablesOf(after, d) <==> k in TablesOf(mem, d) + {i} { SlotsWithTable(mem, d, i, f, d, k); }
    assert i !in TablesOf(mem, d);
    assert TablesOf(after, d) == TablesOf(mem, d) + {i};
  }

  lemma SpentThen(m0: Memory, f0: seq<nat>, m1: Memory, f1: seq<nat>, m2: Memory, f2: seq<nat>, d: nat, s: set<nat>, t: set<nat>, u: set<nat>)
    requires Spent(m0, f0, m1, f1, d, s) && Spent(m1, f1, m2, f2, d, t) && s + t == u
    ensures Spent(m0, f0, m2, f2, d, u)
  {
    hide TablesOf;
  }

  lemma SpentOnPte(mem: Memory, free: seq<nat>, role: Roles, d: nat, v: nat, e: Pte)
    requires Ok(mem, free, role) && IsDir(role, d) && v < ENTRIES * ENTRIES && Slot(mem, d, v / ENTRIES).p && (e.p || e == ZERO)
    ensures Spent(mem, free, WithPte(mem, d, v / ENTRIES, v % ENTRIES, e), free, d, {})
  {
    var after := WithPte(mem, d, v / ENTRIES, v % ENTRIES, e);
    forall i | 0 <= i < ENTRIES ensures Slot(after, d, i) == Slot(mem, d, i) {
      LookupsWithPte(mem, free, role, d, v / ENTRIES, v % ENTRIES, e, d, i, 0);
    }
    SpentNothing(mem, after, free, d);
  }

  lemma TablesForMore(first: nat, n: nat)
    ensures TablesFor(first, 0) == {} && TablesFor(first, n + 1) == TablesFor(first, n) + {(first + n) / ENTRIES}
  {
    assert (first + n) / ENTRIES in TablesFor(first, n + 1);
  }

  /** The page tables for the first k entries of the kernel's map. */
  ghost function KernelTables(data: nat, k: nat): (ts: set<nat>)
    requires EXTMEM < data < PHYSTOP && k <= 4
  {
    if k == 0 then {}
    else KernelTables(data, k - 1) + TablesFor(KmapTable(data)[k - 1].virt, KmapPages(KmapTable(data)[k - 1]))
  }

  const KERNEL_TABLES: nat := 64

  lemma TablesForInterval(first: nat, n: nat)
    requires n > 0
    ensures TablesFor(first, n) == Interval(first / ENTRIES, (first + n - 1) / ENTRIES + 1)
  {
    var lo, hi := first / ENTRIES, (first + n - 1) / ENTRIES + 1;
    forall i: nat | lo <= i < hi ensures i in TablesFor(first, n) {
      var v := if i == lo then first else i * ENTRIES;
      assert v / ENTRIES == i && first <= v < first + n;
    }
  }

  lemma TablesForJoin(first: nat, m: nat, n: nat)
    ensures TablesFor(first, m) + TablesFor(first + m, n) == TablesFor(first, m + n)
  {
  }

  /** 56 page tables map the memory, and 8 the devices. */
  lemma AllKernelTables(data: nat)
    requires EXTMEM < data < PHYSTOP
    ensures KernelTables(data, 4) == Interval(512, 568) + Interval(1016, 1024) && |KernelTables(data, 4)| == KERNEL_TABLES
  {
    hide TablesFor, Interval;
    KernelTablesUnion(data);
    TablesForJoin(KERNBASE, EXTMEM, data - EXTMEM);
    TablesForJoin(KERNBASE, data, PHYSTOP - data);
    TablesForInterval(KERNBASE, PHYSTOP);
    TablesForInterval(DEVSPACE, 0x2000);
    IntervalSize(512, 568);
    IntervalSize(1016, 1024);
    Apart(512, 568, 1016, 1024);
  }

  lemma KernelTablesUnion(data: nat)
    requires EXTMEM < data < PHYSTOP
    ensures KernelTables(data, 4) ==
              TablesFor(KERNBASE, EXTMEM) + TablesFor(KERNBASE + EXTMEM, data - EXTMEM)
              + TablesFor(KERNBASE + data, PHYSTOP - data) + TablesFor(DEVSPACE, 0x2000)
  {
    hide TablesFor;
    var k := KmapTable(data);
    assert KernelTables(data, 1) == TablesFor(k[0].virt, KmapPages(k[0]));
    assert KernelTables(data, 2) == KernelTables(data, 1) + TablesFor(k[1].virt, KmapPages(k[1]));
    assert KernelTables(data, 3) == KernelTables(data, 2) + TablesFor(k[2].virt, KmapPages(k[2]));
  }

  lemma Apart(a: nat, b: nat, c: nat, d: nat)
    requires b <= c
    ensures Interval(a, b) !! Interval(c, d)
    ensures |Interval(a, b) + Interval(c, d)| == |Interval(a, b)| + |Interval(c, d)|
  {
  }

  lemma KernelTablesWithin(data: nat, k: nat)
    requires EXTMEM < data < PHYSTOP && k < 4
    ensures KernelTables(data, k) + TablesFor(KmapTable(data)[k].virt, KmapPages(KmapTable(data)[k])) == KernelTables(data, k + 1)
    ensures KernelTables(data, k + 1) <= KernelTables(data, 4)
    decreases 4 - k
  {
    hide TablesFor, KmapPages, KmapTable;
    if k < 3 { KernelTablesWithin(data, k + 1); }
  }

  /** Of the frames that were free in f0, the page tables ts of d have taken theirs, and other uses have taken n. */
  ghost predicate Paid(f0: seq<nat>, mem: Memory, free: seq<nat>, d: nat, ts: set<nat>, n: nat) {
    TablesOf(mem, d) == ts && |free| + |ts| + n == |f0|
  }

  lemma PaidMore(f0: seq<nat>, m1: Memory, f1: seq<nat>, m2: Memory, f2: seq<nat>, d: nat, ts: set<nat>, n: nat, t: set<nat>)
    requires Paid(f0, m1, f1, d, ts, n) && Spent(m1, f1, m2, f2, d, t)
    ensures Paid(f0, m2, f2, d, ts + t, n)
  {
    hide TablesOf;
  }

  /** With no frame left and a page table still missing, there were too few frames. */
  lemma PaidOut(f0: seq<nat>, mem: Memory, free: seq<nat>, d: nat, ts: set<nat>, n: nat, i: nat, all: set<nat>)
    requires Paid(f0, mem, free, d, ts, n) && free == [] && i !in TablesOf(mem, d) && i in all && ts <= all
    ensures |f0| < |all| + n
  {
    hide TablesOf;
    Larger(ts, i, all);
  }

  lemma Larger(s: set<nat>, i: nat, t: set<nat>)
    requires i !in s && i in t && s <= t
    ensures |s| < |t|
  {
    SizeMonotone(s, t - {i});
  }

  /** The tables that n user pages need, and all the frames that a copy of them needs. */
  function UserTables(n: nat): nat { (n + ENTRIES - 1) / ENTRIES }
  function CopyCost(n: nat): nat { 1 + KERNEL_TABLES + n + UserTables(n) }

  ghost function CopyTables(data: nat, n: nat): set<nat>
    requires EXTMEM < data < PHYSTOP
  {
    KernelTables(data, 4) + Interval(0, UserTables(n))
  }

  lemma CopyTablesSize(data: nat, n: nat)
    requires EXTMEM < data < PHYSTOP && n <= KERNBASE
    ensures |CopyTables(data, n)| == KERNEL_TABLES + UserTables(n)
    ensures CopyTables(data, 0) == KernelTables(data, 4)
    ensures n < KERNBASE ==> CopyTables(data, n) + {n / ENTRIES} == CopyTables(data, n + 1)
    ensures n < KERNBASE && n / ENTRIES !in CopyTables(data, n) ==> UserTables(n + 1) == UserTables(n) + 1
  {
    AllKernelTables(data);
    IntervalSize(0, UserTables(n));
    Apart(0, UserTables(n), 512, 568);
    Apart(0, UserTables(n), 1016, 1024);
    var a, b := KernelTables(data, 4), Interval(0, UserTables(n));
    assert a !! b && |a + b| == |a| + |b|;
    assert Interval(0, UserTables(0)) == {};
    if n < KERNBASE { NextTable(n); }
  }

  lemma NextTable(n: nat)
    ensures Interval(0, UserTables(n)) + {n / ENTRIES} == Interval(0, UserTables(n + 1))
    ensures n / ENTRIES !in Interval(0, UserTables(n)) ==> UserTables(n + 1) == UserTables(n) + 1
  {
    assert AtLeast(n / ENTRIES, 0);
    assert UserTables(n + 1) == n / ENTRIES + 1;
    assert UserTables(n) == n / ENTRIES || UserTables(n) == n / ENTRIES + 1;
  }

  /** kalloc and filling the page take one frame and no page table. */
  lemma PaidPage(f0: seq<nat>, mem: Memory, free: seq<nat>, d: nat, ts: set<nat>, n: nat, f: nat, c: Content)
    requires Paid(f0, mem, free, d, ts, n) && |free| > 0 && f != d
    ensures Paid(f0, mem[f := c], free[1..], d, ts, n + 1)
  {
    assert TablesOf(mem[f := c], d) == TablesOf(mem, d);
  }

  lemma PaidStart(f0: seq<nat>, mem: Memory, d: nat)
    requires |f0| > 0
    ensures Paid(f0, mem[d := NoEntries()], f0[1..], d, {}, 1)
  {
    assert TablesOf(mem[d := NoEntries()], d) == {};
  }

  // ---- how many frames are free ----

  ghost function FreeFrames(role: Roles): set<nat> { set f | f in role && role[f] == Free }

  ghost function TableFrames(role: Roles, d: nat): set<nat> { set f | f in role && TableFrameOf(role[f], d) }

  lemma FreeSize(free: seq<nat>, role: Roles)
    requires FreeList(free, role)
    ensures |free| == |FreeFrames(role)|
  {
    DistinctSize(free);
    assert FreeFrames(role) == Elements(free);
  }

  lemma TablesByRole(mem: Memory, free: seq<nat>, role: Roles, d: nat, i: nat)
    requires Ok(mem, free, role) && IsDir(role, d) && i < ENTRIES
    ensures i in TablesOf(mem, d) <==> exists f :: f in role && role[f] == Tab(d, i)
    ensures forall f :: f in role && role[f] == Tab(d, i) ==> f == Slot(mem, d, i).frame
    ensures i in TablesOf(mem, d) ==> Slot(mem, d, i).frame in role && role[Slot(mem, d, i).frame] == Tab(d, i)
  {
    assert TableOf(mem, role, d, i);
    forall f | f in role && role[f] == Tab(d, i) ensures i in TablesOf(mem, d) && f == Slot(mem, d, i).frame {
      assert Placed(mem, role, f);
    }
  }

  ghost function FramesAt(mem: Memory, d: nat, s: set<nat>): set<nat> { set i | i in s :: Slot(mem, d, i).frame }

  lemma {:induction false} FramesSize(mem: Memory, free: seq<nat>, role: Roles, d: nat, s: set<nat>)
    requires Ok(mem, free, role) && IsDir(role, d) && s <= TablesOf(mem, d)
    ensures |FramesAt(mem, d, s)| == |s|
    decreases |s|
  {
    if s != {} {
      var i :| i in s;
      FramesSize(mem, free, role, d, s - {i});
      var f := Slot(mem, d, i).frame;
      forall j | j in s ensures Slot(mem, d, j).frame in role && role[Slot(mem, d, j).frame] == Tab(d, j) {
        TablesByRole(mem, free, role, d, j);
      }
      hide Ok, TablesOf;
      assert f !in FramesAt(mem, d, s - {i});
      assert FramesAt(mem, d, s) == FramesAt(mem, d, s - {i}) + {f};
    } else {
      assert FramesAt(mem, d, s) == {};
    }
  }

  lemma TablesSize(mem: Memory, free: seq<nat>, role: Roles, d: nat)
    requires Ok(mem, free, role) && IsDir(role, d)
    ensures |TableFrames(role, d)| == |TablesOf(mem, d)|
  {
    FramesSize(mem, free, role, d, TablesOf(mem, d));
    forall f | f in TableFrames(role, d) ensures f in FramesAt(mem, d, TablesOf(mem, d)) {
      assert Placed(mem, role, f);
      TablesByRole(mem, free, role, d, role[f].i);
      assert role[f].i in TablesOf(mem, d);
    }
    forall i | i in TablesOf(mem, d) ensures Slot(mem, d, i).frame in TableFrames(role, d) {
      TablesByRole(mem, free, role, d, i);
    }
    assert TableFrames(role, d) == FramesAt(mem, d, TablesOf(mem, d));
  }

  /** When only page tables of d have been added, the free frames have become fewer by just those, and every frame is as
      free or used as before exactly when there are none. */
  lemma FramesLost(m0: Memory, f0: seq<nat>, r0: Roles, mem: Memory, free: seq<nat>, role: Roles, d: nat)
    requires Ok(m0, f0, r0) && Ok(mem, free, role) && IsDir(r0, d) && TablesGrow(r0, role, d)
    ensures |free| + |TablesOf(mem, d)| == |f0| + |TablesOf(m0, d)|
    ensures role == r0 <==> TablesOf(mem, d) == TablesOf(m0, d)
  {
    assert IsDir(role, d);
    FreeSize(f0, r0);
    FreeSize(free, role);
    TablesSize(m0, f0, r0, d);
    TablesSize(mem, free, role, d);
    hide Ok, TablesOf;
    FramesSplit(r0, role, d);
    if role == r0 { TablesByFrames(m0, f0, r0, mem, free, role, d); }
  }

  lemma FramesSplit(r0: Roles, role: Roles, d: nat)
    requires TablesGrow(r0, role, d)
    ensures |FreeFrames(role)| + |TableFrames(role, d)| == |FreeFrames(r0)| + |TableFrames(r0, d)|
    ensures |TableFrames(role, d)| == |TableFrames(r0, d)| ==> role == r0
  {
    hide FreeFrames, TableFrames, TablesGrow;
    var added := TableFrames(role, d) - TableFrames(r0, d);
    FramesMove(r0, role, d);
    if added == {} { NoneAdded(r0, role, d); }
  }

  lemma FramesMove(r0: Roles, role: Roles, d: nat)
    requires TablesGrow(r0, role, d)
    ensures var added := TableFrames(role, d) - TableFrames(r0, d);
            && TableFrames(role, d) == TableFrames(r0, d) + added && TableFrames(r0, d) !! added
            && FreeFrames(r0) == FreeFrames(role) + added && FreeFrames(role) !! added
  {
  }

  lemma NoneAdded(r0: Roles, role: Roles, d: nat)
    requires TablesGrow(r0, role, d) && TableFrames(role, d) - TableFrames(r0, d) == {}
    ensures role == r0
  {
    forall f | f in r0 ensures role[f] == r0[f] { assert f !in TableFrames(role, d) - TableFrames(r0, d); }
  }

  lemma TablesByFrames(m0: Memory, f0: seq<nat>, r0: Roles, mem: Memory, free: seq<nat>, role: Roles, d: nat)
    requires Ok(m0, f0, r0) && Ok(mem, free, role) && IsDir(r0, d) && IsDir(role, d)
    requires TableFrames(role, d) == TableFrames(r0, d)
    requires forall f :: f in TableFrames(r0, d) ==> f in role && f in r0 && role[f] == r0[f]
    ensures TablesOf(mem, d) == TablesOf(m0, d)
  {
    forall i: nat | i < ENTRIES ensures i in TablesOf(mem, d) <==> i in TablesOf(m0, d) {
      TablesByRole(m0, f0, r0, d, i);
      TablesByRole(mem, free, role, d, i);
      if i in TablesOf(m0, d) { assert Slot(m0, d, i).frame in TableFrames(r0, d); }
      if i in TablesOf(mem, d) { assert Slot(mem, d, i).frame in TableFrames(role, d); }
    }
  }
}
