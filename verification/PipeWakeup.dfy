/**
 pipewrite, piperead and pipeclose of any number of processes on one pipe, step by step:
 no byte is lost, reordered or made up, and no reader or writer sleeps through its wakeup.
 */
module PipeWakeup {
  import opened Basics
  import opened Monitor
  import opened PipeModel

  /** The channels &p->nread and &p->nwrite. */
  datatype Chan = Readers | Writers

  datatype Job =
    | Idle
    | Writing(addr: seq<byte>, i: nat)  // in the loop of pipewrite, before the test for a full buffer
    | Filled(addr: seq<byte>, i: nat)   // the buffer was full: in wakeup(&p->nread)
    | Napping(addr: seq<byte>, i: nat)  // and about to sleep
    | Wrote                             // in the last wakeup of pipewrite
    | Reading(n: nat)                   // before the test for an empty buffer
    | Copying(n: nat, out: seq<byte>)   // in the copying loop of piperead
    | Drained                           // in its wakeup
    | Closing(writable: bool)
    | Closed(writable: bool)
    | Done                              // about to release the lock

  datatype State = State(m: World<Chan, Pipe>, jobs: seq<Job>)

  /** When a sleeper on a channel has something to do: readers unless nobody reads any more, and writers. */
  predicate Ready(c: Chan, p: Pipe) {
    match c
    case Readers => p.readopen && (!Empty(p) || !p.writeopen)
    case Writers => !Full(p) || !p.readopen
  }

  const READY: (Chan, Pipe) -> bool := (c: Chan, p: Pipe) => Ready(c, p)

  function Newly(p: Pipe, q: Pipe): set<Chan> {
    (if Ready(Readers, q) && !Ready(Readers, p) then {Readers} else {}) +
    (if Ready(Writers, q) && !Ready(Writers, p) then {Writers} else {})
  }

  function ClosedEnd(p: Pipe, writable: bool): Pipe { if writable then p.(writeopen := false) else p.(readopen := false) }

  function Other(writable: bool): Chan { if writable then Readers else Writers }

  predicate MustWait(p: Pipe) { Empty(p) && p.writeopen }

  predicate InSleep(e: Event<Chan, Pipe>) { e.ReleaseLock? || e.Sched? || e.Reacquire? }

  /** One statement of process p while its job is x, which becomes j. */
  ghost predicate Does(v: Pipe, x: Job, e: Event<Chan, Pipe>, to: Pipe, j: Job) {
    match x
    case Idle => e.Acquire? && ((exists a :: j == Writing(a, 0)) || j.Reading? || j.Closing?)
    case Writing(a, i) =>
      || (i < |a| && Full(v) && !v.readopen && e.Release? && j == Idle)
      || (i < |a| && Full(v) && v.readopen && e == Wakeup(Readers) && j == Filled(a, i))
      || (i < |a| && !Full(v) && |v.data| == PIPESIZE && e.Act? && to == Put(v, a[i]) && j == Writing(a, i + 1))
      || (i >= |a| && e == Wakeup(Readers) && j == Wrote)
      || (InSleep(e) && j == x)
    case Filled(a, i) => e.WakeAll? && j == Napping(a, i)
    case Napping(a, i) => e == Sleep(Writers) && j == Writing(a, i)
    case Wrote => e.WakeAll? && j == Done
    case Reading(n) =>
      || (MustWait(v) && e == Sleep(Readers) && j == x)
      || (!MustWait(v) && Copies(v, n, [], e, to, j))
      || (InSleep(e) && j == x)
    case Copying(n, out) => Copies(v, n, out, e, to, j)
    case Drained => e.WakeAll? && j == Done
    case Closing(w) => e.Act? && to == ClosedEnd(v, w) && j == Closed(w)
    case Closed(w) => (e == Wakeup(Other(w)) && j == x) || (e.WakeAll? && j == Done)
    case Done => e.Release? && j == Idle
  }

  /** The copying loop: one more byte, or the wakeup after it. */
  ghost predicate Copies(v: Pipe, n: nat, out: seq<byte>, e: Event<Chan, Pipe>, to: Pipe, j: Job) {
    if |out| < n && !Empty(v) then
      |v.data| == PIPESIZE && e.Act? && to == Get(v) && j == Copying(n, out + [First(v)])
    else e == Wakeup(Writers) && j == Drained
  }

  ghost predicate Runs(s: State, p: nat, e: Event<Chan, Pipe>, j: Job) {
    && p < |s.m.procs| == |s.jobs|
    && Does(s.m.state, s.jobs[p], e, if e.Act? then e.state else s.m.state, j)
    && (e.Act? ==> s.m.procs[p].Inside? && e.owes == s.m.procs[p].owes + Newly(s.m.state, e.state))
  }

  ghost predicate Step(s: State, p: nat, s': State) {
    exists e, j :: Runs(s, p, e, j) && Moves(s.m, p, e, s'.m) && s'.jobs == s.jobs[p := j]
  }

  /** The process is where its job says, owes only what its job will pay, and has read the last bytes taken out. */
  ghost predicate Placed(pc: Pc<Chan>, j: Job, v: Pipe) {
    match j
    case Idle => pc.Outside?
    case Writing(a, i) =>
      && !pc.Outside? && !pc.Waking? && i <= |a|
      && (pc.Inside? ==> pc.owes <= {Readers} && (v.readopen || pc.owes == {}))
    case Filled(a, i) => i <= |a| && pc.Waking? && pc.chan == Readers && pc.owes <= {Readers} && Full(v) && v.readopen
    case Napping(a, i) => i <= |a| && pc == Inside({}) && Full(v) && v.readopen
    case Wrote => pc.Waking? && pc.chan == Readers && pc.owes <= {Readers}
    case Reading(n) => !pc.Outside? && !pc.Waking? && (pc.Inside? ==> pc.owes == {})
    case Copying(n, out) =>
      pc.Inside? && pc.owes <= {Writers} && |out| <= n && |out| <= |v.got| && out == v.got[|v.got| - |out|..]
    case Drained => pc.Waking? && pc.chan == Writers && pc.owes <= {Writers}
    case Closing(w) => pc == Inside({})
    case Closed(w) => (pc.Inside? || pc.Waking?) && pc.owes <= {Other(w)} && (pc.Waking? ==> pc.chan == Other(w))
    case Done => pc == Inside({})
  }

  ghost predicate Good(s: State) {
    && |s.m.procs| == |s.jobs| && Inv(READY, s.m) && Valid(s.m.state)
    && forall p :: 0 <= p < |s.jobs| ==> Placed(s.m.procs[p], s.jobs[p], s.m.state)
  }

  ghost predicate Initial(s: State) {
    && |s.m.procs| == |s.jobs| && Start(s.m) && Valid(s.m.state) && s.m.state.got == []
    && forall p :: 0 <= p < |s.jobs| ==> s.jobs[p] == Idle
  }

  ghost predicate StepOfSome(s: State, t: State) { exists p :: Step(s, p, t) }

  ghost predicate Run(states: seq<State>) {
    && |states| > 0 && Initial(states[0])
    && forall i :: 0 <= i < |states| - 1 ==> StepOfSome(states[i], states[i + 1])
  }

  lemma CodeObeys(s: State, p: nat, e: Event<Chan, Pipe>, j: Job, m: World<Chan, Pipe>)
    requires Good(s) && Runs(s, p, e, j) && Moves(s.m, p, e, m)
    ensures Disciplined(READY, s.m, p, e)
  {
    assert Placed(s.m.procs[p], s.jobs[p], s.m.state);
    hide Valid, Inv;
    if e.Act? {
      forall c | READY(c, e.state) && !READY(c, s.m.state) ensures c in e.owes { assert c == Readers || c == Writers; }
    }
  }

  lemma DataStaysValid(s: State, p: nat, e: Event<Chan, Pipe>, j: Job, m: World<Chan, Pipe>)
    requires Good(s) && Runs(s, p, e, j) && Moves(s.m, p, e, m)
    ensures Valid(m.state)
  {
    var v := s.m.state;
    if e.Act? {
      match s.jobs[p] {
        case Writing(a, i) => PutValid(v, a[i]);
        case Closing(w) =>
        case _ => GetValid(v);
      }
    }
  }

  lemma ClosingOwes(v: Pipe, w: bool)
    ensures Newly(v, ClosedEnd(v, w)) <= {Other(w)}
  {
    var q := ClosedEnd(v, w);
    assert if w then Ready(Writers, q) == Ready(Writers, v) else !Ready(Readers, q);
  }

  lemma ClosingPlace(s: State, p: nat, e: Event<Chan, Pipe>, j: Job, m: World<Chan, Pipe>)
    requires Runs(s, p, e, j) && Moves(s.m, p, e, m) && Placed(s.m.procs[p], s.jobs[p], s.m.state) && s.jobs[p].Closing?
    ensures Placed(m.procs[p], j, m.state)
  {
    hide Newly, ClosedEnd;
    ClosingOwes(s.m.state, s.jobs[p].writable);
    assert m.procs[p] == Inside({} + Newly(s.m.state, ClosedEnd(s.m.state, s.jobs[p].writable)));
  }

  lemma BytePlace(s: State, p: nat, e: Event<Chan, Pipe>, j: Job, m: World<Chan, Pipe>)
    requires Runs(s, p, e, j) && Moves(s.m, p, e, m) && Placed(s.m.procs[p], s.jobs[p], s.m.state) && e.Act? && !s.jobs[p].Closing?
    ensures Placed(m.procs[p], j, m.state)
  {
  }

  lemma OwnPlace(s: State, p: nat, e: Event<Chan, Pipe>, j: Job, m: World<Chan, Pipe>)
    requires Runs(s, p, e, j) && Moves(s.m, p, e, m) && Placed(s.m.procs[p], s.jobs[p], s.m.state)
    ensures Placed(m.procs[p], j, m.state)
  {
    hide Put, Get, Newly, ClosedEnd, First;
    if s.jobs[p].Closing? {
      ClosingPlace(s, p, e, j, m);
    } else if e.Act? {
      BytePlace(s, p, e, j, m);
    }
  }

  /** Nothing is changed without the lock. */
  lemma NoTouch(s: State, p: nat, e: Event<Chan, Pipe>, j: Job)
    requires Runs(s, p, e, j)
    ensures !e.Touch?
  {
  }

  lemma OtherPlace(s: State, p: nat, e: Event<Chan, Pipe>, m: World<Chan, Pipe>, q: nat)
    requires Moves(s.m, p, e, m) && q < |s.m.procs| == |s.jobs| && q != p && Placed(s.m.procs[q], s.jobs[q], s.m.state)
    requires !e.Touch? && (HoldsLock(s.m.procs[p]) ==> !HoldsLock(s.m.procs[q]))
    ensures Placed(m.procs[q], s.jobs[q], m.state)
  {
  }

  lemma PlacesStay(s: State, p: nat, e: Event<Chan, Pipe>, j: Job, m: World<Chan, Pipe>, q: nat)
    requires Good(s) && Runs(s, p, e, j) && Moves(s.m, p, e, m) && q < |s.jobs|
    ensures Placed(m.procs[q], s.jobs[p := j][q], m.state)
  {
    NoTouch(s, p, e, j);
    assert p < |s.jobs|;
    hide Valid, Placed, Runs, Moves;
    assert HoldsLock(s.m.procs[q]) <==> s.m.lock == Some(q);
    assert HoldsLock(s.m.procs[p]) <==> s.m.lock == Some(p);
    if q == p { OwnPlace(s, p, e, j, m); } else { OtherPlace(s, p, e, m, q); }
  }

  lemma StepKeepsGood(s: State, p: nat, s': State)
    requires Good(s) && Step(s, p, s')
    ensures Good(s')
  {
    var e, j :| Runs(s, p, e, j) && Moves(s.m, p, e, s'.m) && s'.jobs == s.jobs[p := j];
    CodeObeys(s, p, e, j, s'.m);
    StepKeepsInv(READY, s.m, p, e, s'.m);
    DataStaysValid(s, p, e, j, s'.m);
    forall q | 0 <= q < |s'.jobs| ensures Placed(s'.m.procs[q], s'.jobs[q], s'.m.state) {
      PlacesStay(s, p, e, j, s'.m, q);
    }
  }

  lemma {:induction false} RunKeepsGood(states: seq<State>, i: nat)
    requires Run(states) && i < |states|
    ensures Good(states[i])
  {
    if i > 0 {
      RunKeepsGood(states, i - 1);
      assert StepOfSome(states[i - 1], states[i - 1 + 1]);
      var p :| Step(states[i - 1], p, states[i]);
      StepKeepsGood(states[i - 1], p, states[i]);
    }
  }

  /** At every moment of every run the bytes delivered are a prefix of the bytes accepted, and the counters, also after
      they have wrapped around, are at most PIPESIZE apart. */
  lemma FirstInFirstOut(states: seq<State>, i: nat)
    requires Run(states) && i < |states|
    ensures var v := states[i].m.state;
            && v.got <= v.sent && (v.nwrite - v.nread) % UINT == |v.sent| - |v.got| <= PIPESIZE
  {
    RunKeepsGood(states, i);
    TestsExact(states[i].m.state);
  }

  /** What a piperead has copied so far is a contiguous piece of the stream: the bytes delivered last. */
  lemma ReadsAreContiguous(states: seq<State>, i: nat, p: nat)
    requires Run(states) && i < |states| && p < |states[i].jobs| && states[i].jobs[p].Copying?
    ensures var v, out := states[i].m.state, states[i].jobs[p].out;
            |out| <= |v.got| <= |v.sent| && out == v.sent[|v.got| - |out|..|v.got|]
  {
    RunKeepsGood(states, i);
    var v := states[i].m.state;
    assert Placed(states[i].m.procs[p], states[i].jobs[p], v);
    assert v.got == v.sent[..|v.got|];
  }

  /** In every reachable state a process asleep in piperead, unless a process is still to wake the readers, is right to
      be: the pipe is empty and can still be written. */
  lemma NoReaderSleepsOnData(states: seq<State>, i: nat, p: nat)
    requires Run(states) && i < |states| && p < |states[i].m.procs|
    requires states[i].m.procs[p] == Asleep(Readers) && !Owed(states[i].m.procs, Readers)
    ensures var v := states[i].m.state; v.readopen ==> v.got == v.sent && v.writeopen
  {
    RunKeepsGood(states, i);
    NoLostWakeup(READY, states[i].m, p, Readers);
    TestsExact(states[i].m.state);
  }

  lemma NoWriterSleepsOnRoom(states: seq<State>, i: nat, p: nat)
    requires Run(states) && i < |states| && p < |states[i].m.procs|
    requires states[i].m.procs[p] == Asleep(Writers) && !Owed(states[i].m.procs, Writers)
    ensures var v := states[i].m.state; v.readopen && |v.sent| == |v.got| + PIPESIZE
  {
    RunKeepsGood(states, i);
    NoLostWakeup(READY, states[i].m, p, Writers);
    TestsExact(states[i].m.state);
  }

  /** Nobody is owed a wakeup once nobody is inside the lock. */
  lemma NoWindowWhenUnlocked(states: seq<State>, i: nat, c: Chan)
    requires Run(states) && i < |states| && states[i].m.lock.None?
    ensures !Owed(states[i].m.procs, c)
  {
    RunKeepsGood(states, i);
    var s := states[i];
    forall q | 0 <= q < |s.m.procs| ensures !Owes(s.m.procs[q], c) {
      assert HoldsLock(s.m.procs[q]) <==> s.m.lock == Some(q);
    }
  }

  // ---- no deadlock ----

  /** Process q is in the code, not asleep, and can make its next step. */
  ghost predicate CanStep(s: State, q: nat) {
    q < |s.m.procs| && !s.m.procs[q].Outside? && exists t :: Step(s, q, t)
  }

  lemma StepsBy(s: State, q: nat, e: Event<Chan, Pipe>, j: Job)
    requires Runs(s, q, e, j) && Enabled(s.m, q, e) && !s.m.procs[q].Outside?
    ensures CanStep(s, q)
  {
    hide Does, Moves, Newly;
    var m := Enables(s.m, q, e);
    assert Step(s, q, State(m, s.jobs[q := j]));
  }

  lemma CopyMoves(s: State, q: nat, n: nat, out: seq<byte>)
    requires Good(s) && Free(s.m, q) && s.m.procs[q].Inside?
    requires (s.jobs[q] == Reading(n) && !MustWait(s.m.state) && out == []) || s.jobs[q] == Copying(n, out)
    ensures CanStep(s, q)
  {
    hide CanStep, Inv, Newly;
    var v := s.m.state;
    if |out| < n && !Empty(v) {
      StepsBy(s, q, Act(Get(v), s.m.procs[q].owes + Newly(v, Get(v))), Copying(n, out + [First(v)]));
    } else {
      StepsBy(s, q, Wakeup(Writers), Drained);
    }
  }

  lemma InsideMoves(s: State, q: nat)
    requires Good(s) && Free(s.m, q) && s.m.procs[q].Inside?
    ensures CanStep(s, q)
  {
    hide CanStep, Inv, Newly, Copies;
    var v, x, owes := s.m.state, s.jobs[q], s.m.procs[q].owes;
    assert Placed(s.m.procs[q], x, v);
    match x {
      case Writing(a, i) =>
        if i >= |a| { StepsBy(s, q, Wakeup(Readers), Wrote); }
        else if !Full(v) { StepsBy(s, q, Act(Put(v, a[i]), owes + Newly(v, Put(v, a[i]))), Writing(a, i + 1)); }
        else if v.readopen { StepsBy(s, q, Wakeup(Readers), Filled(a, i)); }
        else { StepsBy(s, q, Release, Idle); }
      case Napping(a, i) => StepsBy(s, q, Sleep(Writers), Writing(a, i));
      case Reading(n) => if MustWait(v) { StepsBy(s, q, Sleep(Readers), x); } else { CopyMoves(s, q, n, []); }
      case Copying(n, out) => CopyMoves(s, q, n, out);
      case Closing(w) => StepsBy(s, q, Act(ClosedEnd(v, w), owes + Newly(v, ClosedEnd(v, w))), Closed(w));
      case Closed(w) => StepsBy(s, q, Wakeup(Other(w)), x);
      case Done => StepsBy(s, q, Release, Idle);
    }
  }

  lemma WakerMoves(s: State, q: nat)
    requires Good(s) && Free(s.m, q) && s.m.procs[q].Waking?
    ensures CanStep(s, q)
  {
    hide CanStep, Inv, Newly, Copies;
    assert Placed(s.m.procs[q], s.jobs[q], s.m.state);
    var x := s.jobs[q];
    StepsBy(s, q, WakeAll, if x.Filled? then Napping(x.addr, x.i) else Done);
  }

  lemma SleeperMoves(s: State, q: nat)
    requires Good(s) && Free(s.m, q) && (s.m.procs[q].Falling? || s.m.procs[q].Drowsy? || s.m.procs[q].Awake?)
    ensures CanStep(s, q)
  {
    hide CanStep, Inv, Newly, Copies;
    assert Placed(s.m.procs[q], s.jobs[q], s.m.state);
    StepsBy(s, q, if s.m.procs[q].Falling? then ReleaseLock else if s.m.procs[q].Drowsy? then Sched else Reacquire, s.jobs[q]);
  }

  /** In every reachable state in which a process is in the code of the pipe and not asleep, such a process can make its next
      step: the locks never block everybody. */
  lemma NeverStuck(states: seq<State>, i: nat, p: nat)
    requires Run(states) && i < |states| && p < |states[i].m.procs|
    requires !states[i].m.procs[p].Outside? && !states[i].m.procs[p].Asleep?
    ensures exists q :: CanStep(states[i], q)
  {
    RunKeepsGood(states, i);
    var q := SomebodyFree(READY, states[i].m, p);
    hide Inv, Placed, CanStep;
    if states[i].m.procs[q].Inside? { InsideMoves(states[i], q); }
    else if states[i].m.procs[q].Waking? { WakerMoves(states[i], q); }
    else { SleeperMoves(states[i], q); }
  }

  // ---- closing ----

  /** A step opens no end, and the step of pipeclose closes its own. */
  lemma StepCloses(s: State, p: nat, s': State)
    requires Step(s, p, s')
    ensures s'.m.state.readopen ==> s.m.state.readopen
    ensures s'.m.state.writeopen ==> s.m.state.writeopen
    ensures p < |s.jobs| && p < |s'.jobs| && s.jobs[p].Closing? && s'.jobs[p].Closed? ==>
              if s.jobs[p].writable then !s'.m.state.writeopen else !s'.m.state.readopen
  {
    hide Newly;
    var e, j :| Runs(s, p, e, j) && Moves(s.m, p, e, s'.m) && s'.jobs == s.jobs[p := j];
    NoTouch(s, p, e, j);
  }

  /** An end that has been closed stays closed. */
  lemma {:induction false} StaysClosed(states: seq<State>, i: nat, k: nat)
    requires Run(states) && i <= k < |states|
    ensures states[k].m.state.readopen ==> states[i].m.state.readopen
    ensures states[k].m.state.writeopen ==> states[i].m.state.writeopen
    decreases k
  {
    if i < k {
      StaysClosed(states, i, k - 1);
      assert StepOfSome(states[k - 1], states[k - 1 + 1]);
      var p :| Step(states[k - 1], p, states[k]);
      StepCloses(states[k - 1], p, states[k]);
    }
  }
}
