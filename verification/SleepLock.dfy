/**
 The sleep-lock: acquiresleep and releasesleep of any number of processes, step by step.
 At most one process holds the lock, and no process sleeps on a free one.
 */
module SleepLock {
  import opened Monitor

  /** locked and pid of struct sleeplock. */
  datatype Lock = Lock(locked: bool, pid: nat)

  /** The one channel is the address of the lock. */
  datatype Chan = TheLock

  /** What a process is doing: before the test in acquiresleep, past it, holding the lock, and releasing it before and
      after the lock is given up, and after the wakeup. */
  datatype Job = Idle | Acquiring | Taken | Holding | Releasing | Freed | Woke

  datatype State = State(m: World<Chan, Lock>, jobs: seq<Job>)

  const READY: (Chan, Lock) -> bool := (c: Chan, l: Lock) => !l.locked

  /** The channels whose condition became true. */
  function Newly(l: Lock, k: Lock): set<Chan> { if l.locked && !k.locked then {TheLock} else {} }

  /** One statement of acquiresleep or releasesleep by process p, whose job becomes j. */
  ghost predicate Runs(s: State, p: nat, e: Event<Chan, Lock>, j: Job) {
    && p < |s.m.procs| == |s.jobs|
    && var l := s.m.state;
    match e
    case Acquire => (s.jobs[p] == Idle && j == Acquiring) || (s.jobs[p] == Holding && j == Releasing)
    case Sleep(c) => s.jobs[p] == Acquiring && l.locked && j == Acquiring
    case Act(k, owes) =>
      && s.m.procs[p].Inside? && owes == s.m.procs[p].owes + Newly(l, k)
      && ((s.jobs[p] == Acquiring && !l.locked && k == Lock(true, p) && j == Taken)
          || (s.jobs[p] == Releasing && k == Lock(false, 0) && j == Freed))
    case Wakeup(c) => s.jobs[p] == Freed && j == Freed
    case WakeAll => s.jobs[p] == Freed && j == Woke
    case Release => (s.jobs[p] == Taken && j == Holding) || (s.jobs[p] == Woke && j == Idle)
    case Touch(k) => false
    case _ => s.jobs[p] == Acquiring && j == Acquiring  // inside sleep
  }

  ghost predicate Step(s: State, p: nat, s': State) {
    exists e, j :: Runs(s, p, e, j) && Moves(s.m, p, e, s'.m) && s'.jobs == s.jobs[p := j]
  }

  predicate Owner(j: Job) { j == Taken || j == Holding || j == Releasing }

  /** The process is where its job says, and owes a wakeup only between freeing the lock and waking. */
  ghost predicate Placed(pc: Pc<Chan>, j: Job) {
    match j
    case Idle => pc.Outside?
    case Holding => pc.Outside?
    case Acquiring => !pc.Outside? && !pc.Waking? && (pc.Inside? ==> pc.owes == {})
    case Taken => pc == Inside({})
    case Releasing => pc == Inside({})
    case Freed => (pc.Inside? || pc.Waking?) && pc.owes <= {TheLock} && (pc.Waking? ==> pc.chan == TheLock)
    case Woke => pc == Inside({})
  }

  ghost predicate Good(s: State) {
    && |s.m.procs| == |s.jobs| && Inv(READY, s.m)
    && (forall p :: 0 <= p < |s.jobs| ==> Placed(s.m.procs[p], s.jobs[p]))
    && (forall p :: 0 <= p < |s.jobs| ==> (Owner(s.jobs[p]) <==> s.m.state.locked && s.m.state.pid == p))
    && (s.m.state.locked ==> s.m.state.pid < |s.jobs|)
  }

  ghost predicate Initial(s: State) {
    && |s.m.procs| == |s.jobs| && Start(s.m) && s.m.state == Lock(false, 0)
    && forall p :: 0 <= p < |s.jobs| ==> s.jobs[p] == Idle
  }

  /** A run: any process may make each step. */
  ghost predicate Run(states: seq<State>) {
    && |states| > 0 && Initial(states[0])
    && forall i :: 0 <= i < |states| - 1 ==> StepOfSome(states[i], states[i + 1])
  }

  ghost predicate StepOfSome(s: State, t: State) { exists p :: Step(s, p, t) }

  lemma OneChan(c: Chan)
    ensures c == TheLock
  {
  }

  /** The code follows the rules under which no wakeup is lost. */
  lemma CodeObeys(s: State, p: nat, e: Event<Chan, Lock>, j: Job, m: World<Chan, Lock>)
    requires Good(s) && Runs(s, p, e, j) && Moves(s.m, p, e, m)
    ensures Disciplined(READY, s.m, p, e)
  {
    assert Placed(s.m.procs[p], s.jobs[p]);
    if e.Act? {
      forall c | READY(c, e.state) && !READY(c, s.m.state) ensures c in e.owes { OneChan(c); }
    }
  }

  lemma StaysPlaced(s: State, p: nat, e: Event<Chan, Lock>, j: Job, m: World<Chan, Lock>, q: nat)
    requires Good(s) && Runs(s, p, e, j) && Moves(s.m, p, e, m) && q < |s.jobs|
    ensures |m.procs| == |s.jobs| && Placed(m.procs[q], s.jobs[p := j][q])
  {
    hide Inv;
    assert Placed(s.m.procs[q], s.jobs[q]) && Placed(s.m.procs[p], s.jobs[p]);
    if e.Wakeup? { OneChan(e.chan); }
  }

  /** The owner is the process recorded. */
  lemma OwnersStay(s: State, p: nat, e: Event<Chan, Lock>, j: Job, m: World<Chan, Lock>)
    requires Good(s) && Runs(s, p, e, j) && Moves(s.m, p, e, m)
    ensures var jobs := s.jobs[p := j];
            && (forall q :: 0 <= q < |jobs| ==> (Owner(jobs[q]) <==> m.state.locked && m.state.pid == q))
            && (m.state.locked ==> m.state.pid < |jobs|)
  {
    hide Inv, Placed;
  }

  lemma StepKeepsGood(s: State, p: nat, s': State)
    requires Good(s) && Step(s, p, s')
    ensures Good(s')
  {
    hide Inv, Disciplined, Placed, Moves, Owner;
    var e, j :| Runs(s, p, e, j) && Moves(s.m, p, e, s'.m) && s'.jobs == s.jobs[p := j];
    CodeObeys(s, p, e, j, s'.m);
    StepKeepsInv(READY, s.m, p, e, s'.m);
    OwnersStay(s, p, e, j, s'.m);
    forall q | 0 <= q < |s'.jobs| ensures |s'.m.procs| == |s'.jobs| && Placed(s'.m.procs[q], s'.jobs[q]) {
      StaysPlaced(s, p, e, j, s'.m, q);
    }
    StaysPlaced(s, p, e, j, s'.m, p);
  }

  lemma {:induction false} RunKeepsGood(states: seq<State>, i: nat)
    requires Run(states) && i < |states|
    ensures Good(states[i])
  {
    if i > 0 {
      RunKeepsGood(states, i - 1);
      assert StepOfSome(states[i - 1], states[i - 1 + 1]);
      var p :| Step(states[i - 1], p, states[i]);
      StepKeepsGood(states[i - 1], p, states[i]);
    }
  }

  /** In every reachable state, two processes never both hold the lock. */
  lemma MutualExclusion(states: seq<State>, i: nat, p: nat, q: nat)
    requires Run(states) && i < |states| && p < |states[i].jobs| && q < |states[i].jobs|
    requires Owner(states[i].jobs[p]) && Owner(states[i].jobs[q])
    ensures p == q && states[i].m.state == Lock(true, p)
  {
    RunKeepsGood(states, i);
  }

  /** In every reachable state, a process asleep on a free lock is about to be woken: some process has freed the lock
      and has not yet finished its wakeup. */
  lemma NobodySleepsOnAFreeLock(states: seq<State>, i: nat, p: nat)
    requires Run(states) && i < |states| && p < |states[i].m.procs|
    requires states[i].m.procs[p].Asleep? && !states[i].m.state.locked
    ensures exists q :: 0 <= q < |states[i].jobs| && states[i].jobs[q] == Freed
  {
    RunKeepsGood(states, i);
    var s := states[i];
    if !Owed(s.m.procs, TheLock) {
      OneChan(s.m.procs[p].chan);
      NoLostWakeup(READY, s.m, p, TheLock);
    } else {
      var q :| 0 <= q < |s.m.procs| && Owes(s.m.procs[q], TheLock);
      assert Placed(s.m.procs[q], s.jobs[q]);
    }
  }

  // ---- no deadlock ----

  /** Process q is not idle and can make its next step. */
  ghost predicate CanStep(s: State, q: nat) { q < |s.jobs| && s.jobs[q] != Idle && exists t :: Step(s, q, t) }

  lemma StepsBy(s: State, q: nat, e: Event<Chan, Lock>, j: Job)
    requires Runs(s, q, e, j) && Enabled(s.m, q, e) && s.jobs[q] != Idle
    ensures CanStep(s, q)
  {
    var m := Enables(s.m, q, e);
    assert Step(s, q, State(m, s.jobs[q := j]));
  }

  lemma FreeMoves(s: State, q: nat)
    requires Good(s) && Free(s.m, q) && s.jobs[q] != Idle
    ensures CanStep(s, q)
  {
    hide CanStep;
    var w, l, x := s.m, s.m.state, s.jobs[q];
    assert Placed(w.procs[q], x);
    match w.procs[q] {
      case Outside => StepsBy(s, q, Acquire, Releasing);
      case Inside(owes) =>
        var k := if x == Acquiring then Lock(true, q) else Lock(false, 0);
        if x == Acquiring && l.locked { StepsBy(s, q, Sleep(TheLock), x); }
        else if x == Acquiring || x == Releasing { StepsBy(s, q, Act(k, owes + Newly(l, k)), if x == Acquiring then Taken else Freed); }
        else if x == Freed { StepsBy(s, q, Wakeup(TheLock), x); }
        else { StepsBy(s, q, Release, if x == Taken then Holding else Idle); }
      case Waking(c, owes) => StepsBy(s, q, WakeAll, Woke);
      case Falling(c) => StepsBy(s, q, ReleaseLock, x);
      case Drowsy(c) => StepsBy(s, q, Sched, x);
      case Awake(c) => StepsBy(s, q, Reacquire, x);
    }
  }

  lemma SomebodyMoves(s: State, p: nat)
    requires Good(s) && p < |s.jobs| && s.jobs[p] != Idle && !s.m.procs[p].Asleep?
    ensures exists q :: CanStep(s, q)
  {
    var q := SomebodyFree(READY, s.m, p);
    assert Placed(s.m.procs[q], s.jobs[q]);
    FreeMoves(s, q);
  }

  /** No deadlock: in every reachable state in which a process has asked for the lock or holds it, one that has can make its
      next step; so they never all sleep. */
  lemma NoDeadlock(states: seq<State>, i: nat, p: nat)
    requires Run(states) && i < |states| && p < |states[i].jobs| && states[i].jobs[p] != Idle
    ensures exists q :: CanStep(states[i], q)
  {
    RunKeepsGood(states, i);
    var s := states[i];
    if !s.m.procs[p].Asleep? {
      SomebodyMoves(s, p);
    } else if s.m.state.locked {
      var q := s.m.state.pid;
      assert Owner(s.jobs[q]) && Placed(s.m.procs[q], s.jobs[q]);
      SomebodyMoves(s, q);
    } else {
      NobodySleepsOnAFreeLock(states, i, p);
      var q :| 0 <= q < |s.jobs| && s.jobs[q] == Freed;
      assert Placed(s.m.procs[q], s.jobs[q]);
      SomebodyMoves(s, q);
    }
  }
}
