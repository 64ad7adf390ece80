/**
 The process table: wakeup1, exit, wait, kill and fork under ptable.lock.  Each method is what one
 process does between taking the lock and giving it up, so what every method keeps holds under any
 interleaving of any number of processes.
 */
module ProcTable {
  import opened Basics

  datatype State = UNUSED | EMBRYO | SLEEPING | RUNNABLE | RUNNING | ZOMBIE

  /** What a process sleeps on: nothing, the process structure of a slot, or some other address. */
  datatype Chan = NoChan | ProcAt(slot: int) | Address(a: nat)

  const NOBODY: int := -1
  const INIT: nat := 0

  datatype Proc = Proc(state: State, pid: nat, parent: int, chan: Chan, killed: bool)

  predicate Living(p: Proc) { p.state == SLEEPING || p.state == RUNNABLE || p.state == RUNNING }

  predicate SleepsOn(p: Proc, c: Chan) { p.state == SLEEPING && p.chan == c }

  /** Every child that runs, sleeps or is a zombie has a living parent, and so has one that fork is making once it has a
      parent; a free slot is nobody's child. */
  ghost predicate Family(t: seq<Proc>) {
    && INIT < |t| && Living(t[INIT]) && t[INIT].parent == NOBODY && (forall p :: 0 <= p < |t| ==> t[p].parent != p)
    && (forall p :: 0 <= p < |t| && p != INIT && (Living(t[p]) || t[p].state == ZOMBIE) ==>
          0 <= t[p].parent < |t| && Living(t[t[p].parent]))
    && (forall p :: 0 <= p < |t| && t[p].state == UNUSED ==> t[p].parent == NOBODY)
    && (forall p :: 0 <= p < |t| && t[p].state == EMBRYO && t[p].parent != NOBODY ==>
          0 <= t[p].parent < |t| && Living(t[t[p].parent]))
  }

  predicate ZombieChild(t: seq<Proc>, q: nat, p: int) { q < |t| && t[q].parent == p && t[q].state == ZOMBIE }

  /** No parent sleeps in wait while it has a zombie child. */
  ghost predicate NoLostExit(t: seq<Proc>) {
    forall p, q :: 0 <= p < |t| && SleepsOn(t[p], ProcAt(p)) ==> !ZombieChild(t, q, p)
  }

  ghost predicate Good(t: seq<Proc>) { Family(t) && NoLostExit(t) }

  // ---- wakeup1 ----

  function WokenProc(p: Proc, c: Chan): Proc { if SleepsOn(p, c) then p.(state := RUNNABLE) else p }

  function Woken(t: seq<Proc>, c: Chan): (r: seq<Proc>)
    ensures |r| == |t| && forall i :: 0 <= i < |t| ==> r[i] == WokenProc(t[i], c)
  {
    seq(|t|, i requires 0 <= i < |t| => WokenProc(t[i], c))
  }

  method Wakeup1(table: array<Proc>, c: Chan)
    modifies table
    ensures table[..] == Woken(old(table[..]), c)
  {
    for i := 0 to table.Length
      invariant forall k :: 0 <= k < i ==> table[k] == WokenProc(old(table[k]), c)
      invariant forall k :: i <= k < table.Length ==> table[k] == old(table[k])
    {
      if table[i].state == SLEEPING && table[i].chan == c { table[i] := table[i].(state := RUNNABLE); }
    }
  }

  lemma WokenGood(t: seq<Proc>, c: Chan)
    requires Good(t)
    ensures Good(Woken(t, c))
  {
    var r := Woken(t, c);
    forall p, q | 0 <= p < |r| && SleepsOn(r[p], ProcAt(p)) ensures !ZombieChild(r, q, p) {
      assert SleepsOn(t[p], ProcAt(p)) && !ZombieChild(t, q, p);
    }
  }

  // ---- exit ----

  /** A zombie child of cur is among the first k slots. */
  ghost predicate Inherits(t: seq<Proc>, cur: nat, k: nat) { exists q: nat :: q < k && ZombieChild(t, q, cur) }

  /** The first k slots have lost cur as their parent, and init has been woken if it inherited a zombie. */
  ghost function Abandoned(t: seq<Proc>, cur: nat, k: nat): (r: seq<Proc>)
    ensures |r| == |t| && forall i :: 0 <= i < |t| ==> r[i] == AbandonedProc(t, cur, k, i)
  {
    seq(|t|, i requires 0 <= i < |t| => AbandonedProc(t, cur, k, i))
  }

  ghost function AbandonedProc(t: seq<Proc>, cur: nat, k: nat, i: nat): Proc
    requires i < |t|
  {
    var p := if i < k && t[i].parent == cur then t[i].(parent := INIT) else t[i];
    if Inherits(t, cur, k) then WokenProc(p, ProcAt(INIT)) else p
  }

  /** The table after cur has exited. */
  ghost function Exited(t: seq<Proc>, cur: nat): seq<Proc>
    requires cur < |t|
  {
    var r := Abandoned(Woken(t, ProcAt(t[cur].parent)), cur, |t|);
    r[cur := r[cur].(state := ZOMBIE)]
  }

  lemma AbandonedStep(t: seq<Proc>, cur: nat, k: nat)
    requires k < |t|
    ensures var r, next := Abandoned(t, cur, k), Abandoned(t, cur, k + 1);
            if r[k].parent != cur then next == r
            else
              var r1 := r[k := r[k].(parent := INIT)];
              next == if r1[k].state == ZOMBIE then Woken(r1, ProcAt(INIT)) else r1
  {
    assert Inherits(t, cur, k + 1) <==> Inherits(t, cur, k) || ZombieChild(t, k, cur);
  }

  /** What exit does to slot i. */
  lemma ExitedAt(t: seq<Proc>, cur: nat, i: nat)
    requires cur < |t| && i < |t|
    ensures |Exited(t, cur)| == |t|
    ensures var p := Exited(t, cur)[i];
            && p.parent == (if t[i].parent == cur then INIT else t[i].parent)
            && (if i == cur then p.state == ZOMBIE
                else p.state == t[i].state || (t[i].state == SLEEPING && p.state == RUNNABLE))
            && (p.state == SLEEPING ==> p.chan == t[i].chan && p.chan != ProcAt(t[cur].parent) &&
                                        (Inherits(t, cur, |t|) ==> p.chan != ProcAt(INIT)))
  {
    var w := Woken(t, ProcAt(t[cur].parent));
    forall q: nat ensures ZombieChild(w, q, cur) <==> ZombieChild(t, q, cur) {}
  }

  lemma ExitedFamily(t: seq<Proc>, cur: nat)
    requires cur < |t| && cur != INIT && Family(t) && t[cur].state == RUNNING
    ensures Family(Exited(t, cur))
  {
    hide Exited;
    var r := Exited(t, cur);
    ExitedAt(t, cur, cur);
    forall i | 0 <= i < |t|
      ensures r[i].parent == (if t[i].parent == cur then INIT else t[i].parent)
      ensures if i == cur then r[i].state == ZOMBIE
              else r[i].state == t[i].state || (t[i].state == SLEEPING && r[i].state == RUNNABLE)
    {
      ExitedAt(t, cur, i);
    }
  }

  lemma ExitedGood(t: seq<Proc>, cur: nat)
    requires cur < |t| && cur != INIT && Good(t) && t[cur].state == RUNNING
    ensures Good(Exited(t, cur))
  {
    ExitedFamily(t, cur);
    var r := Exited(t, cur);
    forall p: nat, q: nat | p < |r| && SleepsOn(r[p], ProcAt(p)) ensures !ZombieChild(r, q, p) {
      ExitedAt(t, cur, p);
      if q < |t| {
        ExitedAt(t, cur, q);
        assert !ZombieChild(t, q, p);
        if q != cur && t[q].parent == cur && t[q].state == ZOMBIE { assert ZombieChild(t, q, cur); }
      }
    }
  }

  lemma NoneAbandoned(t: seq<Proc>, cur: nat)
    ensures Abandoned(t, cur, 0) == t
  {
  }

  /** exit, from taking ptable.lock to the switch that never returns. */
  method Exit(table: array<Proc>, cur: nat)
    requires cur < table.Length && cur != INIT && Good(table[..]) && table[cur].state == RUNNING
    modifies table
    ensures table[..] == Exited(old(table[..]), cur) && Step(old(table[..]), Exits(cur), table[..])
    ensures Good(table[..])
  {
    hide Good, Family, NoLostExit, Abandoned, AbandonedProc, Woken, Inherits;
    ghost var t := table[..];
    ExitedGood(t, cur);
    Wakeup1(table, ProcAt(table[cur].parent));
    ghost var woken := table[..];
    NoneAbandoned(woken, cur);
    for p := 0 to table.Length
      invariant table[..] == Abandoned(woken, cur, p)
    {
      AbandonedStep(woken, cur, p);
      if table[p].parent == cur {
        table[p] := table[p].(parent := INIT);
        if table[p].state == ZOMBIE { Wakeup1(table, ProcAt(INIT)); }
      }
    }
    table[cur] := table[cur].(state := ZOMBIE);
  }

  // ---- wait ----

  datatype Outcome = Reaped(child: nat, pid: nat) | NoChildren | Slept

  ghost predicate HasChild(t: seq<Proc>, p: nat) { exists q :: 0 <= q < |t| && t[q].parent == p }

  /** What the slot of a reaped child becomes. */
  function Reap(p: Proc): Proc { p.(state := UNUSED, pid := 0, parent := NOBODY, killed := false) }

  /** wait, from taking ptable.lock (or getting it back in sleep) to giving it up: the first zombie child is freed; if
      there is none, the process gives up or goes to sleep. */
  method Wait(table: array<Proc>, cur: nat) returns (r: Outcome)
    requires cur < table.Length && Good(table[..]) && table[cur].state == RUNNING
    modifies table
    ensures Good(table[..])
    ensures match r
            case Reaped(q, pid) =>
              && q < table.Length && ZombieChild(old(table[..]), q, cur) && pid == old(table[q]).pid
              && (forall k: nat :: k < q ==> !ZombieChild(old(table[..]), k, cur))
              // the slot is free, without pid, parent and kill mark, and no other slot changes
              && table[..] == old(table[..])[q := Proc(UNUSED, 0, NOBODY, old(table[q]).chan, false)]
              && Step(old(table[..]), Reaps(cur, q), table[..])
            case NoChildren =>
              && table[..] == old(table[..]) && (forall k: nat :: !ZombieChild(old(table[..]), k, cur))
              && (!HasChild(old(table[..]), cur) || old(table[cur]).killed)
            case Slept =>
              && (forall k: nat :: !ZombieChild(old(table[..]), k, cur))
              && HasChild(old(table[..]), cur) && !old(table[cur]).killed
              && table[..] == old(table[..])[cur := old(table[cur]).(chan := ProcAt(cur), state := SLEEPING)]
              && Step(old(table[..]), Waits(cur), table[..])
  {
    hide Good, Family, NoLostExit;
    ghost var t := table[..];
    var havekids := false;
    for p := 0 to table.Length
      invariant table[..] == t
      invariant forall k: nat :: k < p ==> !ZombieChild(t, k, cur)
      invariant havekids <==> exists q :: 0 <= q < p && t[q].parent == cur
    {
      if table[p].parent != cur { continue; }
      havekids := true;
      if table[p].state == ZOMBIE {
        ReapGood(t, cur, p);
        var pid := table[p].pid;
        table[p] := Reap(table[p]);
        return Reaped(p, pid);
      }
    }
    if !havekids || table[cur].killed { return NoChildren; }
    SleepGood(t, cur, ProcAt(cur));
    table[cur] := table[cur].(chan := ProcAt(cur), state := SLEEPING);
    return Slept;
  }

  lemma ReapGood(t: seq<Proc>, cur: nat, q: nat)
    requires Good(t) && cur < |t| && ZombieChild(t, q, cur)
    ensures Good(t[q := Reap(t[q])])
  {
    var r := t[q := Reap(t[q])];
    forall p: nat, k: nat | p < |r| && SleepsOn(r[p], ProcAt(p)) ensures !ZombieChild(r, k, p) {
      assert !ZombieChild(t, k, p);
    }
  }

  /** A running process may go to sleep on anything, but on itself only if it has no zombie child. */
  lemma SleepGood(t: seq<Proc>, cur: nat, c: Chan)
    requires Good(t) && cur < |t| && Living(t[cur])
    requires c == ProcAt(cur) ==> forall q: nat :: !ZombieChild(t, q, cur)
    ensures Good(t[cur := t[cur].(chan := c, state := SLEEPING)])
  {
    var r := t[cur := t[cur].(chan := c, state := SLEEPING)];
    forall p: nat, k: nat | p < |r| && SleepsOn(r[p], ProcAt(p)) ensures !ZombieChild(r, k, p) {
      assert !ZombieChild(t, k, p);
    }
  }

  // ---- kill and fork ----

  /** kill: the first process with that pid is marked, and no longer asleep. */
  method Kill(table: array<Proc>, pid: nat) returns (ok: bool)
    requires Good(table[..])
    modifies table
    ensures Good(table[..])
    ensures ok <==> exists p :: 0 <= p < table.Length && old(table[..])[p].pid == pid
    ensures !ok ==> table[..] == old(table[..])
    ensures ok ==> exists p: nat ::
              && p < table.Length && old(table[..])[p].pid == pid && (forall k :: 0 <= k < p ==> old(table[..])[k].pid != pid)
              && table[..] == old(table[..])[p := Killed(old(table[..])[p])] && Step(old(table[..]), Kills(p), table[..])
              // it is killed, and runs again if it slept
              && table[p].killed && table[p].state == (if old(table[..])[p].state == SLEEPING then RUNNABLE else old(table[..])[p].state)
              && table[p].pid == pid && table[p].parent == old(table[..])[p].parent && table[p].chan == old(table[..])[p].chan
  {
    hide Good, Step;
    ghost var t := table[..];
    for p := 0 to table.Length
      invariant table[..] == t && forall k :: 0 <= k < p ==> t[k].pid != pid
    {
      if table[p].pid == pid {
        KillGood(t, p);
        KillIsStep(t, p);
        table[p] := table[p].(killed := true);
        if table[p].state == SLEEPING { table[p] := table[p].(state := RUNNABLE); }
        assert table[..] == t[p := Killed(t[p])];
        return true;
      }
    }
    return false;
  }

  lemma KillIsStep(t: seq<Proc>, q: nat)
    requires q < |t|
    ensures Step(t, Kills(q), t[q := Killed(t[q])])
  {
  }

  function Killed(p: Proc): Proc {
    p.(killed := true, state := if p.state == SLEEPING then RUNNABLE else p.state)
  }

  lemma KillGood(t: seq<Proc>, q: nat)
    requires Good(t) && q < |t|
    ensures Good(t[q := Killed(t[q])])
  {
    var r := t[q := Killed(t[q])];
    forall p: nat, k: nat | p < |r| && SleepsOn(r[p], ProcAt(p)) ensures !ZombieChild(r, k, p) {
      assert !ZombieChild(t, k, p);
    }
  }

  /** The loop of allocproc: the first free slot is taken, or there is none. */
  method Allocproc(table: array<Proc>, nextpid: nat) returns (r: Option<nat>)
    requires Good(table[..])
    modifies table
    ensures Good(table[..])
    ensures r.None? ==> table[..] == old(table[..]) && forall k :: 0 <= k < table.Length ==> table[k].state != UNUSED
    ensures r.Some? ==>
              && r.value < table.Length && old(table[..])[r.value].state == UNUSED
              && (forall k :: 0 <= k < r.value ==> old(table[..])[k].state != UNUSED)
              && table[..] == old(table[..])[r.value := old(table[..])[r.value].(state := EMBRYO, pid := nextpid)]
              && Step(old(table[..]), Alloc(r.value, nextpid), table[..])
  {
    ghost var t := table[..];
    for p := 0 to table.Length
      invariant table[..] == t && forall k :: 0 <= k < p ==> t[k].state != UNUSED
    {
      if table[p].state == UNUSED {
        StepKeepsGood(t, Alloc(p, nextpid), t[p := t[p].(state := EMBRYO, pid := nextpid)]);
        table[p] := table[p].(state := EMBRYO, pid := nextpid);
        return Some(p);
      }
    }
    return None;
  }

  /** np->parent = curproc, without the lock. */
  method SetParent(table: array<Proc>, cur: nat, child: nat)
    requires cur < table.Length && child < table.Length && Good(table[..])
    requires table[cur].state == RUNNING && table[child].state == EMBRYO && table[child].parent == NOBODY
    modifies table
    ensures Good(table[..]) && table[..] == old(table[..])[child := old(table[child]).(parent := cur)]
    ensures Step(old(table[..]), Adopt(cur, child), table[..])
  {
    StepKeepsGood(table[..], Adopt(cur, child), table[..][child := table[child].(parent := cur)]);
    table[child] := table[child].(parent := cur);
  }

  /** The end of fork, under the lock: the new child may run. */
  method ForkDone(table: array<Proc>, child: nat)
    requires child < table.Length && Good(table[..]) && table[child].state == EMBRYO && table[child].parent != NOBODY
    modifies table
    ensures Good(table[..]) && Living(table[child]) && 0 <= table[child].parent < table.Length && Living(table[table[child].parent])
    ensures table[..] == old(table[..])[child := old(table[child]).(state := RUNNABLE)]
    ensures Step(old(table[..]), Start(child), table[..])
  {
    StepKeepsGood(table[..], Start(child), table[..][child := table[child].(state := RUNNABLE)]);
    table[child] := table[child].(state := RUNNABLE);
  }

  // ---- runs ----

  /** What any process can do to the table: allocproc and its failure, the two halves of the end of fork, exit, the two
      outcomes of wait that change something, sleep elsewhere, wakeup, kill, the scheduler's choice and yield. */
  datatype Event = Alloc(q: nat, pid: nat) | Unalloc(q: nat) | Adopt(cur: nat, q: nat) | Start(q: nat) | Exits(cur: nat)
                 | Reaps(cur: nat, q: nat) | Waits(cur: nat) | Sleeps(cur: nat, a: nat) | Wakes(c: Chan) | Kills(q: nat)
                 | Chosen(q: nat) | Yields(cur: nat)

  ghost predicate Step(t: seq<Proc>, e: Event, t': seq<Proc>) {
    match e
    case Alloc(q, pid) => q < |t| && t[q].state == UNUSED && t' == t[q := t[q].(state := EMBRYO, pid := pid)]
    case Unalloc(q) => q < |t| && t[q].state == EMBRYO && t[q].parent == NOBODY && t' == t[q := t[q].(state := UNUSED)]
    case Adopt(cur, q) =>
      && cur < |t| && t[cur].state == RUNNING && q < |t| && t[q].state == EMBRYO && t[q].parent == NOBODY
      && t' == t[q := t[q].(parent := cur)]
    case Start(q) => q < |t| && t[q].state == EMBRYO && t[q].parent != NOBODY && t' == t[q := t[q].(state := RUNNABLE)]
    case Exits(cur) => cur < |t| && cur != INIT && t[cur].state == RUNNING && t' == Exited(t, cur)
    case Reaps(cur, q) => cur < |t| && t[cur].state == RUNNING && ZombieChild(t, q, cur) && t' == t[q := Reap(t[q])]
    case Waits(cur) =>
      && cur < |t| && t[cur].state == RUNNING && (forall q: nat :: !ZombieChild(t, q, cur))
      && t' == t[cur := t[cur].(chan := ProcAt(cur), state := SLEEPING)]
    case Sleeps(cur, a) =>
      cur < |t| && t[cur].state == RUNNING && t' == t[cur := t[cur].(chan := Address(a), state := SLEEPING)]
    case Wakes(c) => t' == Woken(t, c)
    case Kills(q) => q < |t| && t' == t[q := Killed(t[q])]
    case Chosen(q) => q < |t| && t[q].state == RUNNABLE && t' == t[q := t[q].(state := RUNNING)]
    case Yields(cur) => cur < |t| && t[cur].state == RUNNING && t' == t[cur := t[cur].(state := RUNNABLE)]
  }

  /** What a slot of a free process, a new one or a runnable one may become. */
  ghost predicate Allowed(t: seq<Proc>, q: nat, x: Proc)
    requires q < |t|
  {
    && (x.state == UNUSED || x.state == EMBRYO || x.state == RUNNABLE || x.state == RUNNING)
    && (Living(t[q]) ==> Living(x) && x.parent == t[q].parent)
    && (x.state == UNUSED ==> x.parent == NOBODY)
    && (!Living(t[q]) && x.parent != NOBODY ==> 0 <= x.parent < |t| && x.parent != q && Living(t[x.parent]))
    && (!Living(t[q]) && Living(x) ==> x.parent != NOBODY)
  }

  lemma AllowedGood(t: seq<Proc>, q: nat, x: Proc)
    requires Good(t) && q < |t| && Allowed(t, q, x)
    ensures Good(t[q := x])
  {
    var r := t[q := x];
    forall p: nat, k: nat | p < |r| && SleepsOn(r[p], ProcAt(p)) ensures !ZombieChild(r, k, p) {
      assert !ZombieChild(t, k, p);
    }
  }

  /** The slot that an event changes. */
  function SlotOf(e: Event): nat {
    match e
    case Alloc(q, pid) => q
    case Unalloc(q) => q
    case Adopt(cur, q) => q
    case Start(q) => q
    case Chosen(q) => q
    case Yields(cur) => cur
    case _ => 0
  }

  lemma SlotAllowed(t: seq<Proc>, e: Event, t': seq<Proc>)
    requires Family(t) && Step(t, e, t') && (e.Alloc? || e.Unalloc? || e.Adopt? || e.Start? || e.Chosen? || e.Yields?)
    ensures SlotOf(e) < |t| == |t'| && Allowed(t, SlotOf(e), t'[SlotOf(e)]) && t' == t[SlotOf(e) := t'[SlotOf(e)]]
  {
  }

  lemma StepKeepsGood(t: seq<Proc>, e: Event, t': seq<Proc>)
    requires Good(t) && Step(t, e, t')
    ensures Good(t')
  {
    hide Family, NoLostExit, Exited, Allowed;
    match e
    case Exits(cur) => ExitedGood(t, cur);
    case Reaps(cur, q) => ReapGood(t, cur, q);
    case Waits(cur) => SleepGood(t, cur, ProcAt(cur));
    case Sleeps(cur, a) => SleepGood(t, cur, Address(a));
    case Wakes(c) => WokenGood(t, c);
    case Kills(q) => KillGood(t, q);
    case _ =>
      SlotAllowed(t, e, t');
      AllowedGood(t, SlotOf(e), t'[SlotOf(e)]);
  }

  /** userinit: init may run, every other slot is free. */
  ghost predicate Initial(t: seq<Proc>) {
    && INIT < |t| && t[INIT].state == RUNNABLE && t[INIT].parent == NOBODY
    && forall p :: 0 <= p < |t| && p != INIT ==> t[p].state == UNUSED && t[p].parent == NOBODY
  }

  ghost predicate StepOfSome(t: seq<Proc>, t': seq<Proc>) { exists e :: Step(t, e, t') }

  ghost predicate Run(ts: seq<seq<Proc>>) {
    |ts| > 0 && Initial(ts[0]) && forall i :: 0 <= i < |ts| - 1 ==> StepOfSome(ts[i], ts[i + 1])
  }

  lemma {:induction false} RunKeepsGood(ts: seq<seq<Proc>>, i: nat)
    requires Run(ts) && i < |ts|
    ensures Good(ts[i])
  {
    if i > 0 {
      RunKeepsGood(ts, i - 1);
      assert StepOfSome(ts[i - 1], ts[i - 1 + 1]);
      var e :| Step(ts[i - 1], e, ts[i]);
      StepKeepsGood(ts[i - 1], e, ts[i]);
    }
  }

  /** In every reachable state no parent sleeps in wait beside a zombie child, and every child but init that lives or is a
      zombie has a living parent, who can still wait for it. */
  lemma NoZombieIsMissed(ts: seq<seq<Proc>>, i: nat, p: nat, q: nat)
    requires Run(ts) && i < |ts| && p < |ts[i]| && q < |ts[i]| && q != INIT
    ensures SleepsOn(ts[i][p], ProcAt(p)) ==> !ZombieChild(ts[i], q, p)
    ensures Living(ts[i][q]) || ts[i][q].state == ZOMBIE ==>
              var parent := ts[i][q].parent; 0 <= parent < |ts[i]| && Living(ts[i][parent])
  {
    RunKeepsGood(ts, i);
  }

  // ---- who is born killed ----

  /** No free slot is marked killed, so that neither is a process just allocated. */
  predicate Clean(t: seq<Proc>) { forall q :: 0 <= q < |t| && t[q].state == UNUSED ==> !t[q].killed }

  /** A free slot is marked killed by a kill of the slot while it is free, as kill(0) finds one, or when allocproc gives up
      the slot of a process that has been killed in the meantime; and by nothing else. */
  predicate Stains(t: seq<Proc>, e: Event) {
    (e.Kills? && e.q < |t| && t[e.q].state == UNUSED) || (e.Unalloc? && e.q < |t| && t[e.q].killed)
  }

  lemma StepKeepsClean(t: seq<Proc>, e: Event, t': seq<Proc>)
    requires Clean(t) && Step(t, e, t')
    ensures Clean(t') <==> !Stains(t, e)
  {
    if e.Exits? {
      forall q | 0 <= q < |t'| ensures t'[q].killed == t[q].killed && (t'[q].state == UNUSED <==> t[q].state == UNUSED && q != e.cur) {
        ExitedAt(t, e.cur, q);
        ExitedKilled(t, e.cur, q);
      }
    }
    hide Exited, ZombieChild;
    if Stains(t, e) { assert t'[e.q].state == UNUSED && t'[e.q].killed; }
  }

  lemma ExitedKilled(t: seq<Proc>, cur: nat, i: nat)
    requires cur < |t| && i < |t|
    ensures |Exited(t, cur)| == |t| && Exited(t, cur)[i].killed == t[i].killed
  {
  }

  /** A run with the event of each step. */
  ghost predicate Trace(ts: seq<seq<Proc>>, es: seq<Event>) {
    |ts| == |es| + 1 && Initial(ts[0]) && Clean(ts[0]) && forall i :: 0 <= i < |es| ==> Step(ts[i], es[i], ts[i + 1])
  }

  /** In every run in which nobody kills a free slot, and allocproc gives up no killed one, no process is born killed. */
  lemma {:induction false} NobodyBornKilled(ts: seq<seq<Proc>>, es: seq<Event>, i: nat)
    requires Trace(ts, es) && i < |ts| && forall k :: 0 <= k < i ==> !Stains(ts[k], es[k])
    ensures Clean(ts[i])
    ensures i < |es| && es[i].Alloc? ==> var q := es[i].q; q < |ts[i + 1]| && ts[i + 1][q].state == EMBRYO && !ts[i + 1][q].killed
  {
    hide Step;
    if i > 0 {
      NobodyBornKilled(ts, es, i - 1);
      assert Step(ts[i - 1], es[i - 1], ts[i - 1 + 1]);
      StepKeepsClean(ts[i - 1], es[i - 1], ts[i]);
    }
    if i < |es| && es[i].Alloc? { AllocIs(ts[i], es[i], ts[i + 1]); }
  }

  lemma AllocIs(t: seq<Proc>, e: Event, t': seq<Proc>)
    requires Clean(t) && Step(t, e, t') && e.Alloc?
    ensures e.q < |t'| && t'[e.q].state == EMBRYO && !t'[e.q].killed
  {
  }

  /** An input where one is: kill(0) while the first slot without a pid is the first free one, then fork. */
  method KillZero(table: array<Proc>) returns (child: nat)
    requires Good(table[..]) && Clean(table[..])
    requires exists q: nat :: q < table.Length && table[q].state == UNUSED && table[q].pid == 0 &&
               forall k :: 0 <= k < q ==> table[k].state != UNUSED && table[k].pid != 0
    modifies table
    ensures child < table.Length && table[child].state == EMBRYO && table[child].killed
  {
    hide Good, Clean;
    ghost var t := table[..];
    ghost var q: nat :| q < table.Length && t[q].state == UNUSED && t[q].pid == 0 &&
               forall k :: 0 <= k < q ==> t[k].state != UNUSED && t[k].pid != 0;
    var ok := Kill(table, 0);
    assert t[q].pid == 0;
    ghost var p: nat :| p < table.Length && t[p].pid == 0 && (forall k :: 0 <= k < p ==> t[k].pid != 0)
                        && table[..] == t[p := Killed(t[p])];
    assert p == q;
    assert table[..][q].state == UNUSED;
    var r := Allocproc(table, 1);
    child := r.value;
  }
}
