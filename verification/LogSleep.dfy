/**
 The sleep of begin_op and the wakeups of end_op, for any number of processes: nobody sleeps in
 begin_op while the log would admit an operation.
 */
module LogSleep {
  import opened Monitor
  import opened GroupCommit

  /** The one channel is &log. */
  datatype Chan = TheLog

  /**
   What a process is doing: in the loop of begin_op, past it, in its operation, in log_write before and after the block is
   listed; in end_op before the count goes down, after that with others still inside or as the last, committing, with the
   log emptied, at the end of the commit before and after the log is open again, and after a wakeup.
   */
  datatype Job = Resting | Beginning | Begun | Busy | Logging | Logged | Ending | Left | Last | ToCommit | Cleared | Finishing
               | Opened | Woke

  datatype State = State(m: Monitor.World<Chan, Shared>, jobs: seq<Job>)

  const READY: (Chan, Shared) -> bool := (c: Chan, l: Shared) => l.CanBegin()

  /** The channels whose condition became true. */
  function Newly(l: Shared, k: Shared): set<Chan> { if !l.CanBegin() && k.CanBegin() then {TheLog} else {} }

  /** One statement under log.lock that changes the log from l to k; a panic is no step. */
  ghost predicate Changes(l: Shared, x: Job, k: Shared, j: Job) {
    match x
    case Beginning => l.CanBegin() && k == l.Begin() && j == Begun
    case Logging => (exists no :: k == l.Log(no)) && j == Logged
    case Ending => !l.committing && l.outstanding > 0 && k == l.End() && j == if l.outstanding == 1 then Last else Left
    case Finishing => k == l.Finish() && j == Opened
    case _ => false
  }

  /** One statement of begin_op, log_write, end_op or commit by process p, whose job becomes j. */
  ghost predicate Runs(s: State, p: nat, e: Monitor.Event<Chan, Shared>, j: Job) {
    && p < |s.m.procs| == |s.jobs|
    && var l, x := s.m.state, s.jobs[p];
    match e
    case Acquire => (x == Resting && j == Beginning) || (x == Busy && j in {Logging, Ending}) || (x == Cleared && j == Finishing)
    case Sleep(c) => x == Beginning && !l.CanBegin() && j == Beginning
    case Act(k, owes) => s.m.procs[p].Inside? && owes == s.m.procs[p].owes + Newly(l, k) && Changes(l, x, k, j)
    case Wakeup(c) => (x == Left || x == Opened) && j == x
    case WakeAll => (x == Left || x == Opened) && j == Woke
    case Release =>
      (x in {Begun, Logged} && j == Busy) || (x == Last && j == ToCommit) || (x == Woke && j == Resting)
    case Touch(k) => x == ToCommit && k == l.Emptied() && j == Cleared  // log.lh.n = 0, without the lock
    case _ => x == Beginning && j == Beginning  // inside sleep
  }

  ghost predicate Step(s: State, p: nat, s': State) {
    exists e, j :: Runs(s, p, e, j) && Monitor.Moves(s.m, p, e, s'.m) && s'.jobs == s.jobs[p := j]
  }

  predicate Commits(j: Job) { j in {Last, ToCommit, Cleared, Finishing} }

  /** The process is where its job says, and owes a wakeup only between a change and the wakeup after it. */
  ghost predicate Placed(pc: Pc<Chan>, j: Job) {
    match j
    case Beginning => !pc.Outside? && !pc.Waking? && (pc.Inside? ==> pc.owes == {})
    case Left => (pc.Inside? || pc.Waking?) && pc.owes <= {TheLog} && (pc.Waking? ==> pc.chan == TheLog)
    case Opened => (pc.Inside? || pc.Waking?) && pc.owes <= {TheLog} && (pc.Waking? ==> pc.chan == TheLog)
    case _ => if j in {Resting, Busy, ToCommit, Cleared} then pc.Outside? else pc == Inside({})
  }

  ghost predicate Good(s: State) {
    && |s.m.procs| == |s.jobs| && Monitor.Inv(READY, s.m)
    && (forall p :: 0 <= p < |s.jobs| ==> Placed(s.m.procs[p], s.jobs[p]))
    && (forall p :: 0 <= p < |s.jobs| && Commits(s.jobs[p]) ==> s.m.state.committing)
    && (forall p, q :: 0 <= p < q < |s.jobs| ==> !(Commits(s.jobs[p]) && Commits(s.jobs[q])))
  }

  ghost predicate Initial(s: State) {
    && |s.m.procs| == |s.jobs| && Start(s.m) && s.m.state == Shared([], 0, false)
    && forall p :: 0 <= p < |s.jobs| ==> s.jobs[p] == Resting
  }

  ghost predicate StepOfSome(s: State, t: State) { exists p :: Step(s, p, t) }

  /** A run: any process may make each step. */
  ghost predicate Run(states: seq<State>) {
    && |states| > 0 && Initial(states[0])
    && forall i :: 0 <= i < |states| - 1 ==> StepOfSome(states[i], states[i + 1])
  }

  lemma OneChan(c: Chan)
    ensures c == TheLog
  {
  }

  /** The code follows the rules under which no wakeup is lost: the log can admit an operation that it could not admit
      before only after an end_op that was not the last or a commit, and both wake the sleepers. */
  lemma CodeObeys(s: State, p: nat, e: Monitor.Event<Chan, Shared>, j: Job, m: Monitor.World<Chan, Shared>)
    requires Good(s) && Runs(s, p, e, j) && Monitor.Moves(s.m, p, e, m)
    ensures Disciplined(READY, s.m, p, e)
  {
    assert Placed(s.m.procs[p], s.jobs[p]);
    if e.Act? {
      forall c | READY(c, e.state) && !READY(c, s.m.state) ensures c in e.owes { OneChan(c); }
    }
  }

  lemma StepKeepsGood(s: State, p: nat, s': State)
    requires Good(s) && Step(s, p, s')
    ensures Good(s')
  {
    var e, j :| Runs(s, p, e, j) && Monitor.Moves(s.m, p, e, s'.m) && s'.jobs == s.jobs[p := j];
    CodeObeys(s, p, e, j, s'.m);
    Monitor.StepKeepsInv(READY, s.m, p, e, s'.m);
    hide Monitor.Inv, Disciplined;
    forall q | 0 <= q < |s'.jobs| ensures Placed(s'.m.procs[q], s'.jobs[q]) { StaysPlaced(s, p, e, j, s'.m, q); }
    OneCommitter(s, p, e, j, s'.m);
  }

  lemma StaysPlaced(s: State, p: nat, e: Monitor.Event<Chan, Shared>, j: Job, m: Monitor.World<Chan, Shared>, q: nat)
    requires Good(s) && Runs(s, p, e, j) && Monitor.Moves(s.m, p, e, m) && q < |s.jobs|
    ensures |m.procs| == |s.jobs| && Placed(m.procs[q], s.jobs[p := j][q])
  {
    hide Monitor.Inv;
    assert Placed(s.m.procs[q], s.jobs[q]) && Placed(s.m.procs[p], s.jobs[p]);
    if e.Wakeup? { OneChan(e.chan); }
  }

  /** There is at most one process in commit, and only while committing is set. */
  lemma OneCommitter(s: State, p: nat, e: Monitor.Event<Chan, Shared>, j: Job, m: Monitor.World<Chan, Shared>)
    requires Good(s) && Runs(s, p, e, j) && Monitor.Moves(s.m, p, e, m)
    ensures var jobs := s.jobs[p := j];
            && (forall q :: 0 <= q < |jobs| && Commits(jobs[q]) ==> m.state.committing)
            && (forall q, r :: 0 <= q < r < |jobs| ==> !(Commits(jobs[q]) && Commits(jobs[r])))
  {
    hide Monitor.Inv, Placed;
  }

  lemma {:induction false} RunKeepsGood(states: seq<State>, i: nat)
    requires Run(states) && i < |states|
    ensures Good(states[i])
  {
    if i > 0 {
      RunKeepsGood(states, i - 1);
      assert StepOfSome(states[i - 1], states[i - 1 + 1]);
      var p :| Step(states[i - 1], p, states[i]);
      StepKeepsGood(states[i - 1], p, states[i]);
    }
  }

  /** In every reachable state, if a process sleeps in begin_op while the log would admit it, another is about to wake it:
      it has left an operation or ended a commit and has not finished its wakeup. */
  lemma NobodySleepsOnAnOpenLog(states: seq<State>, i: nat, p: nat)
    requires Run(states) && i < |states| && p < |states[i].m.procs|
    requires states[i].m.procs[p].Asleep? && states[i].m.state.CanBegin()
    ensures exists q :: 0 <= q < |states[i].jobs| && states[i].jobs[q] in {Left, Opened}
  {
    RunKeepsGood(states, i);
    var s := states[i];
    if !Owed(s.m.procs, TheLog) {
      OneChan(s.m.procs[p].chan);
      NoLostWakeup(READY, s.m, p, TheLog);
    } else {
      var q :| 0 <= q < |s.m.procs| && Owes(s.m.procs[q], TheLog);
      assert Placed(s.m.procs[q], s.jobs[q]);
    }
  }

  // ---- counts: who is in an operation, and who commits ----

  predicate InOperation(j: Job) { j in {Begun, Busy, Logging, Logged, Ending} }

  function Operations(jobs: seq<Job>): nat {
    if jobs == [] then 0 else (if InOperation(jobs[0]) then 1 else 0) + Operations(jobs[1..])
  }

  function Committers(jobs: seq<Job>): nat {
    if jobs == [] then 0 else (if Commits(jobs[0]) then 1 else 0) + Committers(jobs[1..])
  }

  lemma {:induction false} OneJob(jobs: seq<Job>, p: nat, j: Job)
    requires p < |jobs|
    ensures Operations(jobs[p := j]) == Operations(jobs) - (if InOperation(jobs[p]) then 1 else 0) + (if InOperation(j) then 1 else 0)
    ensures Committers(jobs[p := j]) == Committers(jobs) - (if Commits(jobs[p]) then 1 else 0) + (if Commits(j) then 1 else 0)
    ensures InOperation(jobs[p]) ==> Operations(jobs) > 0
    ensures Commits(jobs[p]) ==> Committers(jobs) > 0
  {
    hide Commits, InOperation;
    if p == 0 {
      assert jobs[p := j][1..] == jobs[1..];
    } else {
      assert jobs[p := j][1..] == jobs[1..][p - 1 := j] && jobs[1..][p - 1] == jobs[p];
      OneJob(jobs[1..], p - 1, j);
    }
  }

  lemma {:induction false} Nobody(jobs: seq<Job>)
    requires forall p :: 0 <= p < |jobs| ==> jobs[p] == Resting
    ensures Operations(jobs) == Committers(jobs) == 0
  {
    if jobs != [] { Nobody(jobs[1..]); }
  }

  /** Somebody who is counted. */
  lemma {:induction false} SomebodyCounted(jobs: seq<Job>) returns (p: nat)
    requires Operations(jobs) + Committers(jobs) > 0
    ensures p < |jobs| && (InOperation(jobs[p]) || Commits(jobs[p]))
  {
    hide Commits, InOperation;
    if InOperation(jobs[0]) || Commits(jobs[0]) {
      p := 0;
    } else {
      var q := SomebodyCounted(jobs[1..]);
      p := q + 1;
    }
  }

  /** outstanding counts the operations and committing the commit; a commit runs alone, and only an operation or a commit that
      has not emptied the log leaves blocks in it. */
  ghost predicate Counted(s: State) {
    && var l := s.m.state;
    && l.outstanding == Operations(s.jobs) && Committers(s.jobs) == (if l.committing then 1 else 0)
    && (l.committing ==> l.outstanding == 0)
    && (l.blocks != [] ==> l.outstanding > 0 || l.committing)
    && (forall p :: 0 <= p < |s.jobs| && s.jobs[p] in {Cleared, Finishing} ==> l.blocks == [])
  }

  lemma StepKeepsCounted(s: State, p: nat, s': State)
    requires Good(s) && Counted(s) && Step(s, p, s')
    ensures Counted(s')
  {
    hide Monitor.Inv, Placed, Newly, Operations, Committers;
    var e, j :| Runs(s, p, e, j) && Monitor.Moves(s.m, p, e, s'.m) && s'.jobs == s.jobs[p := j];
    OneJob(s.jobs, p, j);
    forall q | 0 <= q < |s.jobs| && s.jobs[q] in {Cleared, Finishing} ensures s.m.state.committing { OneJob(s.jobs, q, j); }
  }

  lemma {:induction false} RunKeepsCounted(states: seq<State>, i: nat)
    requires Run(states) && i < |states|
    ensures Good(states[i]) && Counted(states[i])
  {
    RunKeepsGood(states, i);
    if i > 0 {
      RunKeepsCounted(states, i - 1);
      assert StepOfSome(states[i - 1], states[i - 1 + 1]);
      var p :| Step(states[i - 1], p, states[i]);
      StepKeepsCounted(states[i - 1], p, states[i]);
    } else {
      Nobody(states[0].jobs);
    }
  }

  /** end_op never finds the log committing or nothing outstanding, and log_write is never outside an operation. */
  lemma NoStrayOperation(states: seq<State>, i: nat, p: nat)
    requires Run(states) && i < |states| && p < |states[i].jobs| && InOperation(states[i].jobs[p])
    ensures !states[i].m.state.committing && states[i].m.state.outstanding > 0
  {
    RunKeepsCounted(states, i);
    OneJob(states[i].jobs, p, Resting);
  }

  // ---- no deadlock ----

  /** Process q is in an operation or on its way into or out of one, and can make its next step. */
  ghost predicate CanStep(s: State, q: nat) { q < |s.jobs| && s.jobs[q] != Resting && exists t :: Step(s, q, t) }

  lemma StepsBy(s: State, q: nat, e: Monitor.Event<Chan, Shared>, j: Job)
    requires Runs(s, q, e, j) && Enabled(s.m, q, e) && s.jobs[q] != Resting
    ensures CanStep(s, q)
  {
    var m := Enables(s.m, q, e);
    assert Step(s, q, State(m, s.jobs[q := j]));
  }

  lemma ChangeMoves(s: State, q: nat, k: Shared, j: Job)
    requires Good(s) && Free(s.m, q) && s.m.procs[q].Inside? && s.jobs[q] != Resting && Changes(s.m.state, s.jobs[q], k, j)
    ensures CanStep(s, q)
  {
    hide CanStep, Changes, Newly;
    StepsBy(s, q, Act(k, s.m.procs[q].owes + Newly(s.m.state, k)), j);
  }

  lemma InsideMoves(s: State, q: nat)
    requires Good(s) && Counted(s) && Free(s.m, q) && s.jobs[q] != Resting && s.m.procs[q].Inside?
    ensures CanStep(s, q)
  {
    hide CanStep, Monitor.Inv;
    var l, x := s.m.state, s.jobs[q];
    assert Placed(s.m.procs[q], x);
    match x {
      case Beginning => if l.CanBegin() { ChangeMoves(s, q, l.Begin(), Begun); } else { StepsBy(s, q, Sleep(TheLog), x); }
      case Logging => ChangeMoves(s, q, l.Log(0), Logged);
      case Ending =>
        OneJob(s.jobs, q, x);
        ChangeMoves(s, q, l.End(), if l.outstanding == 1 then Last else Left);
      case Finishing => ChangeMoves(s, q, l.Finish(), Opened);
      case Left => StepsBy(s, q, Wakeup(TheLog), x);
      case Opened => StepsBy(s, q, Wakeup(TheLog), x);
      case Begun => StepsBy(s, q, Release, Busy);
      case Logged => StepsBy(s, q, Release, Busy);
      case Last => StepsBy(s, q, Release, ToCommit);
      case Woke => StepsBy(s, q, Release, Resting);
    }
  }

  lemma OthersMove(s: State, q: nat)
    requires Good(s) && Free(s.m, q) && s.jobs[q] != Resting && !s.m.procs[q].Inside?
    ensures CanStep(s, q)
  {
    hide CanStep, Monitor.Inv;
    var x := s.jobs[q];
    assert Placed(s.m.procs[q], x);
    match s.m.procs[q] {
      case Outside =>
        if x == ToCommit { StepsBy(s, q, Touch(s.m.state.Emptied()), Cleared); }
        else { StepsBy(s, q, Acquire, if x == Busy then Ending else Finishing); }
      case Waking(c, owes) => StepsBy(s, q, WakeAll, Woke);
      case Falling(c) => StepsBy(s, q, ReleaseLock, x);
      case Drowsy(c) => StepsBy(s, q, Sched, x);
      case Awake(c) => StepsBy(s, q, Reacquire, x);
    }
  }

  lemma SomebodyMoves(s: State, p: nat)
    requires Good(s) && Counted(s) && p < |s.jobs| && s.jobs[p] != Resting && !s.m.procs[p].Asleep?
    ensures exists q :: CanStep(s, q)
  {
    var q := SomebodyFree(READY, s.m, p);
    assert Placed(s.m.procs[q], s.jobs[q]);
    hide CanStep;
    if s.m.procs[q].Inside? { InsideMoves(s, q); } else { OthersMove(s, q); }
  }

  /** No deadlock: in every reachable state in which a process is in an operation, or on its way in or out, one of them can
      make its next step; so they never all sleep in begin_op. */
  lemma NoDeadlock(states: seq<State>, i: nat, p: nat)
    requires Run(states) && i < |states| && p < |states[i].jobs| && states[i].jobs[p] != Resting
    ensures exists q :: CanStep(states[i], q)
  {
    RunKeepsCounted(states, i);
    hide CanStep, Monitor.Inv;
    var s := states[i];
    var q := p;
    if s.m.procs[p].Asleep? {
      if s.m.state.CanBegin() {
        NobodySleepsOnAnOpenLog(states, i, p);
        q :| 0 <= q < |s.jobs| && s.jobs[q] in {Left, Opened};
      } else {
        q := SomebodyCounted(s.jobs);
      }
      assert Placed(s.m.procs[q], s.jobs[q]);
    }
    SomebodyMoves(s, q);
  }
}
