/**
 sleep and wakeup of the kernel as a state machine, for any number of processes that share one
 spinlock and some state it protects: no wakeup is lost.
 */
module Monitor {
  import opened Basics

  /** Where a process stands between entering and leaving the code that holds the lock. */
  datatype Pc<C> =
    | Outside
    | Inside(owes: set<C>)            // holds the lock, and still has to wake these channels
    | Waking(chan: C, owes: set<C>)   // in wakeup: holds ptable.lock as well
    | Falling(chan: C)                // in sleep: holds ptable.lock and the lock
    | Drowsy(chan: C)                 // in sleep: has released the lock, and still holds ptable.lock
    | Asleep(chan: C)                 // SLEEPING, with no lock
    | Awake(chan: C)                  // RUNNABLE again, on its way back to the lock

  /** The holders of the lock and of ptable.lock, the processes, and what the lock protects. */
  datatype World<C, S> = World(lock: Option<nat>, ptable: Option<nat>, procs: seq<Pc<C>>, state: S)

  datatype Event<C, S> =
    | Acquire
    | Act(state: S, owes: set<C>)
    | Wakeup(chan: C)
    | WakeAll
    | Sleep(chan: C)
    | ReleaseLock
    | Sched
    | Reacquire
    | Release
    | Touch(state: S)  // a change without the lock

  predicate HoldsLock<C>(pc: Pc<C>) { pc.Inside? || pc.Waking? || pc.Falling? }

  predicate HoldsPtable<C>(pc: Pc<C>) { pc.Waking? || pc.Falling? || pc.Drowsy? }

  /** Every channel whose condition the change makes true is owed a wakeup. */
  ghost predicate Declared<C(!new), S>(ready: (C, S) -> bool, s: S, t: S, owes: set<C>) {
    forall c :: ready(c, t) && !ready(c, s) ==> c in owes
  }

  function WokenPc<C(==)>(pc: Pc<C>, chan: C): Pc<C> {
    if pc.Asleep? && pc.chan == chan then Awake(chan) else pc
  }

  /** wakeup1 */
  function Woken<C(==)>(procs: seq<Pc<C>>, chan: C): (r: seq<Pc<C>>)
    ensures |r| == |procs| && forall q :: 0 <= q < |procs| ==> r[q] == WokenPc(procs[q], chan)
  {
    seq(|procs|, q requires 0 <= q < |procs| => WokenPc(procs[q], chan))
  }

  /** One step of process p, as the locks allow it. */
  predicate Moves<C(==), S(==)>(w: World<C, S>, p: nat, e: Event<C, S>, w': World<C, S>) {
    && p < |w.procs|
    && var pc := w.procs[p];
    match e
    case Acquire =>
      pc.Outside? && w.lock.None? && w' == w.(lock := Some(p), procs := w.procs[p := Inside({})])
    case Act(s, owes) =>
      pc.Inside? && w' == w.(state := s, procs := w.procs[p := Inside(owes)])
    case Wakeup(c) =>
      pc.Inside? && w.ptable.None? && w' == w.(ptable := Some(p), procs := w.procs[p := Waking(c, pc.owes)])
    case WakeAll =>
      pc.Waking? && w' == w.(ptable := None, procs := Woken(w.procs, pc.chan)[p := Inside(pc.owes - {pc.chan})])
    case Sleep(c) =>
      pc.Inside? && w.ptable.None? && w' == w.(ptable := Some(p), procs := w.procs[p := Falling(c)])
    case ReleaseLock =>
      pc.Falling? && w' == w.(lock := None, procs := w.procs[p := Drowsy(pc.chan)])
    case Sched =>
      pc.Drowsy? && w' == w.(ptable := None, procs := w.procs[p := Asleep(pc.chan)])
    case Reacquire =>
      pc.Awake? && w.lock.None? && w' == w.(lock := Some(p), procs := w.procs[p := Inside({})])
    case Release =>
      pc.Inside? && w' == w.(lock := None, procs := w.procs[p := Outside])
    case Touch(s) =>
      pc.Outside? && w' == w.(state := s)
  }

  /** The rules of use: own up to the conditions a change makes true, sleep only on a condition that is false, and
      neither sleep nor leave while a wakeup is owed; and make no condition true without the lock. */
  ghost predicate Disciplined<C(!new), S>(ready: (C, S) -> bool, w: World<C, S>, p: nat, e: Event<C, S>) {
    p < |w.procs| && var pc := w.procs[p];
    match e
    case Act(s, owes) => pc.Inside? ==> pc.owes <= owes && Declared(ready, w.state, s, owes)
    case Sleep(c) => pc == Inside({}) && !ready(c, w.state)
    case Release => pc == Inside({})
    case Touch(s) => Declared(ready, w.state, s, {})
    case _ => true
  }

  ghost predicate Step<C(!new), S>(ready: (C, S) -> bool, w: World<C, S>, p: nat, e: Event<C, S>, w': World<C, S>) {
    Moves(w, p, e, w') && Disciplined(ready, w, p, e)
  }

  predicate WaitsFor<C(==)>(pc: Pc<C>, c: C) { (pc.Falling? || pc.Drowsy? || pc.Asleep?) && pc.chan == c }

  predicate Owes<C(==)>(pc: Pc<C>, c: C) { (pc.Inside? || pc.Waking?) && c in pc.owes }

  /** Some process in the window between changing a condition and waking its channel. */
  ghost predicate Owed<C>(procs: seq<Pc<C>>, c: C) { exists q :: 0 <= q < |procs| && Owes(procs[q], c) }

  ghost predicate Inv<C(!new), S>(ready: (C, S) -> bool, w: World<C, S>) {
    && (forall p :: 0 <= p < |w.procs| ==> (HoldsLock(w.procs[p]) <==> w.lock == Some(p)))
    && (forall p :: 0 <= p < |w.procs| ==> (HoldsPtable(w.procs[p]) <==> w.ptable == Some(p)))
    && (w.lock.Some? ==> w.lock.value < |w.procs|) && (w.ptable.Some? ==> w.ptable.value < |w.procs|)
    && (forall p, c :: 0 <= p < |w.procs| && WaitsFor(w.procs[p], c) && ready(c, w.state) ==> Owed(w.procs, c))
  }

  ghost predicate Start<C, S>(w: World<C, S>) {
    w.lock.None? && w.ptable.None? && forall p :: 0 <= p < |w.procs| ==> w.procs[p].Outside?
  }

  /** Every step of every process keeps the invariant. */
  lemma StepKeepsInv<C(!new), S>(ready: (C, S) -> bool, w: World<C, S>, p: nat, e: Event<C, S>, w': World<C, S>)
    requires Inv(ready, w) && Step(ready, w, p, e, w')
    ensures Inv(ready, w')
  {
    forall q, c | 0 <= q < |w'.procs| && WaitsFor(w'.procs[q], c) && ready(c, w'.state)
      ensures Owed(w'.procs, c)
    {
      if WaitsFor(w.procs[q], c) && ready(c, w.state) {
        assert Owed(w.procs, c);
        var r :| 0 <= r < |w.procs| && Owes(w.procs[r], c);
        assert Owes(w'.procs[r], c);
      } else {
        assert Owes(w'.procs[p], c);
      }
    }
  }

  /** No lost wakeup: outside the window, whoever sleeps on a channel is right to. */
  lemma NoLostWakeup<C(!new), S>(ready: (C, S) -> bool, w: World<C, S>, p: nat, c: C)
    requires Inv(ready, w) && p < |w.procs| && w.procs[p] == Asleep(c) && !Owed(w.procs, c)
    ensures !ready(c, w.state)
  {
    assert WaitsFor(w.procs[p], c);
  }

  // ---- no deadlock ----

  /** Where the process stands and the locks allow the step. */
  predicate Enabled<C, S>(w: World<C, S>, p: nat, e: Event<C, S>) {
    && p < |w.procs|
    && var pc := w.procs[p];
    match e
    case Acquire => pc.Outside? && w.lock.None?
    case Act(s, owes) => pc.Inside?
    case Wakeup(c) => pc.Inside? && w.ptable.None?
    case WakeAll => pc.Waking?
    case Sleep(c) => pc.Inside? && w.ptable.None?
    case ReleaseLock => pc.Falling?
    case Sched => pc.Drowsy?
    case Reacquire => pc.Awake? && w.lock.None?
    case Release => pc.Inside?
    case Touch(s) => pc.Outside?
  }

  /** An enabled step can be made. */
  lemma Enables<C, S>(w: World<C, S>, p: nat, e: Event<C, S>) returns (w': World<C, S>)
    requires Enabled(w, p, e)
    ensures Moves(w, p, e, w')
  {
    var pc := w.procs[p];
    match e {
      case Acquire => w' := w.(lock := Some(p), procs := w.procs[p := Inside({})]);
      case Act(s, owes) => w' := w.(state := s, procs := w.procs[p := Inside(owes)]);
      case Wakeup(c) => w' := w.(ptable := Some(p), procs := w.procs[p := Waking(c, pc.owes)]);
      case WakeAll => w' := w.(ptable := None, procs := Woken(w.procs, pc.chan)[p := Inside(pc.owes - {pc.chan})]);
      case Sleep(c) => w' := w.(ptable := Some(p), procs := w.procs[p := Falling(c)]);
      case ReleaseLock => w' := w.(lock := None, procs := w.procs[p := Drowsy(pc.chan)]);
      case Sched => w' := w.(ptable := None, procs := w.procs[p := Asleep(pc.chan)]);
      case Reacquire => w' := w.(lock := Some(p), procs := w.procs[p := Inside({})]);
      case Release => w' := w.(lock := None, procs := w.procs[p := Outside]);
      case Touch(s) => w' := w.(state := s);
    }
  }

  /** No lock keeps the process from its next statement. */
  ghost predicate Free<C, S>(w: World<C, S>, q: nat) {
    && q < |w.procs|
    && match w.procs[q]
       case Outside => w.lock.None?
       case Asleep(c) => false
       case Inside(owes) => w.ptable.None?
       case Awake(c) => w.lock.None?
       case _ => true
  }

  /** If a process is not asleep, it can go on or one inside the code can. */
  lemma SomebodyFree<C(!new), S>(ready: (C, S) -> bool, w: World<C, S>, p: nat) returns (q: nat)
    requires Inv(ready, w) && p < |w.procs| && !w.procs[p].Asleep?
    ensures Free(w, q) && (q == p || !w.procs[q].Outside?)
  {
    q := if w.ptable.Some? then w.ptable.value else if w.lock.Some? then w.lock.value else p;
  }
}
