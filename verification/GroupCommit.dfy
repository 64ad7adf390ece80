/**
 The group commit of log.c: any number of processes enter and leave file system
 operations, log blocks in them, and the last one to leave commits for all.
 Shared is what log.lock protects; the step functions are the critical sections.
 */
module GroupCommit {
  import opened CrashModel

  datatype Shared = Shared(blocks: seq<nat>, outstanding: nat, committing: bool) {
    /** The two tests of begin_op: neither sends the caller to sleep. */
    predicate CanBegin() {
      !committing && |blocks| + (outstanding + 1) * MAXOPBLOCKS <= LOGSIZE
    }

    function Begin(): Shared {
      this.(outstanding := outstanding + 1)
    }

    /** "too big a transaction" or "log_write outside of trans" */
    predicate LogPanics(size: nat) {
      |blocks| >= LOGSIZE || |blocks| + 1 >= size || outstanding < 1
    }

    /** log_write with absorption. */
    function Log(no: nat): Shared {
      if no in blocks then this else this.(blocks := blocks + [no])
    }

    /** The first critical section of end_op. */
    function End(): Shared
      requires outstanding > 0
    {
      if outstanding == 1 then this.(outstanding := 0, committing := true) else this.(outstanding := outstanding - 1)
    }

    /** log.lh.n = 0 in commit */
    function Emptied(): Shared {
      this.(blocks := [])
    }

    /** The second critical section of end_op. */
    function Finish(): Shared {
      this.(committing := false)
    }
  }

  /** Where a process is: outside, in an operation that has added some blocks, there perhaps in log_write past its two
      tests, which it makes before it takes the lock, or in commit. */
  datatype Proc = Idle | Working(added: nat, tested: bool) | Committing(installed: bool)

  datatype World = World(s: Shared, procs: seq<Proc>)

  datatype Event = BeginOp | Test | Append(no: nat) | EndOp | Install | EndCommit

  /** Process p takes a step; quota bounds the blocks an operation adds. */
  ghost predicate Step(w: World, p: nat, e: Event, w': World, size: nat, quota: nat) {
    && p < |w.procs|
    && match e
       case BeginOp =>
         w.procs[p].Idle? && w.s.CanBegin() && w' == World(w.s.Begin(), w.procs[p := Working(0, false)])
       case Test =>
         && w.procs[p].Working? && !w.procs[p].tested && !w.s.LogPanics(size)
         && w' == World(w.s, w.procs[p := Working(w.procs[p].added, true)])
       case Append(no) =>
         && w.procs[p].Working? && w.procs[p].tested
         && (no !in w.s.blocks ==> w.procs[p].added < quota)
         && w' == World(w.s.Log(no), w.procs[p := Working(w.procs[p].added + (if no in w.s.blocks then 0 else 1), false)])
       case EndOp =>
         && w.procs[p].Working? && !w.procs[p].tested && w.s.outstanding > 0
         && w' == World(w.s.End(), w.procs[p := if w.s.outstanding == 1 then Committing(false) else Idle])
       case Install =>
         w.procs[p] == Committing(false) && w' == World(w.s.Emptied(), w.procs[p := Committing(true)])
       case EndCommit =>
         w.procs[p] == Committing(true) && w' == World(w.s.Finish(), w.procs[p := Idle])
  }

  ghost predicate Init(w: World) {
    w.s == Shared([], 0, false) && forall p :: 0 <= p < |w.procs| ==> w.procs[p] == Idle
  }

  /** How many processes are in an operation, and how many are committing. */
  function Workers(procs: seq<Proc>): nat {
    if procs == [] then 0 else (if procs[0].Working? then 1 else 0) + Workers(procs[1..])
  }

  function Committers(procs: seq<Proc>): nat {
    if procs == [] then 0 else (if procs[0].Committing? then 1 else 0) + Committers(procs[1..])
  }

  /** The blocks that running operations may still add. */
  function Unused(procs: seq<Proc>, quota: nat): int {
    if procs == [] then 0 else (if procs[0].Working? then quota - procs[0].added else 0) + Unused(procs[1..], quota)
  }

  lemma {:induction false} Counts(procs: seq<Proc>, p: nat, x: Proc, quota: nat)
    requires p < |procs|
    ensures Workers(procs[p := x]) ==
            Workers(procs) - (if procs[p].Working? then 1 else 0) + (if x.Working? then 1 else 0)
    ensures Committers(procs[p := x]) ==
            Committers(procs) - (if procs[p].Committing? then 1 else 0) + (if x.Committing? then 1 else 0)
    ensures Unused(procs[p := x], quota) ==
            Unused(procs, quota) - (if procs[p].Working? then quota - procs[p].added else 0)
                                 + (if x.Working? then quota - x.added else 0)
    ensures procs[p].Working? ==> Workers(procs) > 0
    ensures procs[p].Committing? ==> Committers(procs) > 0
  {
    if p == 0 {
      assert procs[p := x][1..] == procs[1..];
    } else {
      assert procs[p := x][1..] == procs[1..][p - 1 := x] && procs[1..][p - 1] == procs[p];
      Counts(procs[1..], p - 1, x, quota);
    }
  }

  lemma {:induction false} UnusedBounds(procs: seq<Proc>, quota: nat)
    requires forall q :: 0 <= q < |procs| && procs[q].Working? ==> procs[q].added <= quota
    ensures 0 <= Unused(procs, quota) <= Workers(procs) * quota
  {
    if procs != [] { UnusedBounds(procs[1..], quota); }
  }

  lemma {:induction false} AllIdle(procs: seq<Proc>, quota: nat)
    requires forall p :: 0 <= p < |procs| ==> procs[p] == Idle
    ensures Workers(procs) == Committers(procs) == Unused(procs, quota) == 0
  {
    if procs != [] { AllIdle(procs[1..], quota); }
  }

  /** The most blocks a log can hold when no operation adds more than quota. */
  function Bound(quota: nat): int {
    LOGSIZE - 2 * MAXOPBLOCKS + 2 * quota
  }

  ghost predicate Inv(w: World, quota: nat) {
    && w.s.outstanding == Workers(w.procs)
    && (if w.s.committing then Committers(w.procs) == 1 && w.s.outstanding == 0 else Committers(w.procs) == 0)
    && (w.s.outstanding == 0 && !w.s.committing ==> w.s.blocks == [])
    && (forall p :: 0 <= p < |w.procs| && w.procs[p].Working? ==> w.procs[p].added <= quota)
    && (forall p :: 0 <= p < |w.procs| && w.procs[p] == Committing(true) ==> w.s.blocks == [])
    && |w.s.blocks| + Unused(w.procs, quota) <= Bound(quota)
    && Distinct(w.s.blocks)
  }

  lemma StepKeepsInv(w: World, p: nat, e: Event, w': World, size: nat, quota: nat)
    requires Inv(w, quota) && Step(w, p, e, w', size, quota) && quota <= MAXOPBLOCKS
    ensures Inv(w', quota)
  {
    var x := w'.procs[p];
    assert w'.procs == w.procs[p := x];
    Counts(w.procs, p, x, quota);
    UnusedBounds(w.procs, quota);
    if e.BeginOp? {
      BeginFits(|w.s.blocks|, w.s.outstanding, Unused(w.procs, quota), quota);
    }
    if e.Install? {
      InstallAlone(w, p);
    }
    if Committers(w.procs) == 0 {
      forall q | 0 <= q < |w.procs| ensures !w.procs[q].Committing? { Counts(w.procs, q, Idle, quota); }
    }
  }

  lemma BeginFits(n: nat, outstanding: nat, unused: int, quota: nat)
    requires n + (outstanding + 1) * MAXOPBLOCKS <= LOGSIZE && unused <= outstanding * quota && quota <= MAXOPBLOCKS
    requires outstanding == 0 ==> n == 0
    ensures n + unused + quota <= Bound(quota)
  {
    assert outstanding == 0 || outstanding == 1 || outstanding == 2;
  }

  lemma InstallAlone(w: World, p: nat)
    requires p < |w.procs| && w.procs[p].Committing? && Committers(w.procs) == 1
    ensures forall q :: 0 <= q < |w.procs| && q != p ==> !w.procs[q].Committing?
  {
    forall q | 0 <= q < |w.procs| && q != p ensures !w.procs[q].Committing? {
      Counts(w.procs, p, Idle, 0);
      Counts(w.procs[p := Idle], q, Idle, 0);
    }
  }

  ghost predicate Moves(w: World, w': World, size: nat, quota: nat) {
    exists p: nat, e: Event :: Step(w, p, e, w', size, quota)
  }

  ghost predicate Run(run: seq<World>, size: nat, quota: nat) {
    && |run| > 0 && Init(run[0])
    && forall i :: 0 <= i < |run| - 1 ==> Moves(run[i], run[i + 1], size, quota)
  }

  ghost predicate Reachable(w: World, size: nat, quota: nat) {
    exists run :: Run(run, size, quota) && run[|run| - 1] == w
  }

  lemma {:induction false} RunKeepsInv(run: seq<World>, size: nat, quota: nat)
    requires Run(run, size, quota) && quota <= MAXOPBLOCKS
    ensures Inv(run[|run| - 1], quota)
  {
    if |run| == 1 {
      AllIdle(run[0].procs, quota);
    } else {
      var before := run[..|run| - 1];
      RunKeepsInv(before, size, quota);
      assert Moves(run[|run| - 2], run[|run| - 1], size, quota);
      var p: nat, e: Event :| Step(run[|run| - 2], p, e, run[|run| - 1], size, quota);
      StepKeepsInv(run[|run| - 2], p, e, run[|run| - 1], size, quota);
    }
  }

  lemma ReachableInv(w: World, size: nat, quota: nat)
    requires Reachable(w, size, quota) && quota <= MAXOPBLOCKS
    ensures Inv(w, quota)
  {
    var run :| Run(run, size, quota) && run[|run| - 1] == w;
    RunKeepsInv(run, size, quota);
  }

  /**
   In every reachable state, for any number of processes: a commit runs alone, with
   no operation outstanding; so a process that is in an operation meets neither the
   panic of end_op nor "log_write outside of trans"; and the blocks listed and the
   space reserved fit the list lh.block.  Whether they fit the log on disk is the
   matter of OutgrowsExactly.
   */
  lemma CommitRunsAlone(w: World, size: nat, p: nat)
    requires Reachable(w, size, MAXOPBLOCKS) && p < |w.procs|
    ensures w.s.committing <==> exists c :: 0 <= c < |w.procs| && w.procs[c].Committing?
    ensures w.s.committing ==> w.s.outstanding == 0
    ensures w.procs[p].Working? ==> !w.s.committing && w.s.outstanding > 0
    // whoever is past the tests of log_write still finds a free place in lh.block, whatever others have logged since
    ensures w.procs[p].Working? && w.procs[p].added < MAXOPBLOCKS ==> |w.s.blocks| < LOGSIZE
    ensures 0 <= Unused(w.procs, MAXOPBLOCKS) <= LOGSIZE - |w.s.blocks|
  {
    ReachableInv(w, size, MAXOPBLOCKS);
    Counts(w.procs, p, Idle, MAXOPBLOCKS);
    UnusedBounds(w.procs, MAXOPBLOCKS);
    UnusedBounds(w.procs[p := Idle], MAXOPBLOCKS);
    if c :| 0 <= c < |w.procs| && w.procs[c].Committing? {
      Counts(w.procs, c, Idle, MAXOPBLOCKS);
    } else {
      NoCommitters(w.procs);
    }
  }

  lemma {:induction false} NoCommitters(procs: seq<Proc>)
    requires forall c :: 0 <= c < |procs| ==> !procs[c].Committing?
    ensures Committers(procs) == 0
  {
    if procs != [] { NoCommitters(procs[1..]); }
  }

  // ---- exactly when log_write can panic ----

  ghost predicate CanPanic(size: nat, quota: nat) {
    exists w: World, p: nat :: Reachable(w, size, quota) && PanicsAt(w, p, size)
  }

  ghost predicate PanicsAt(w: World, p: nat, size: nat) {
    p < |w.procs| && w.procs[p].Working? && !w.procs[p].tested && w.s.LogPanics(size)
  }

  /** Some reachable state has an operation whose next log_write panics, exactly when the bound fails the guard. */
  lemma PanicExactlyBeyondBound(size: nat, quota: nat)
    requires 1 <= quota <= MAXOPBLOCKS && size >= 1
    ensures CanPanic(size, quota) <==> Bound(quota) >= LOGSIZE || Bound(quota) + 1 >= size
  {
    if CanPanic(size, quota) {
      var w: World, p: nat :| Reachable(w, size, quota) && PanicsAt(w, p, size);
      ReachableInv(w, size, quota);
      UnusedBounds(w.procs, quota);
      Counts(w.procs, p, Idle, quota);
    }
    if Bound(quota) >= LOGSIZE || Bound(quota) + 1 >= size {
      var w, p := FullLog(size, quota);
      assert PanicsAt(w, p, size);
    }
  }

  /** mkfs gives the log LOGSIZE blocks: operations that add 9 blocks are safe there, and 10 are too many anywhere. */
  lemma MkfsQuota()
    ensures !CanPanic(LOGSIZE, 9) && forall size: nat :: size >= 1 ==> CanPanic(size, MAXOPBLOCKS)
  {
    PanicExactlyBeyondBound(LOGSIZE, 9);
    forall size: nat | size >= 1 ensures CanPanic(size, MAXOPBLOCKS) {
      PanicExactlyBeyondBound(size, MAXOPBLOCKS);
    }
  }

  lemma ReachStep(w: World, p: nat, e: Event, w': World, size: nat, quota: nat)
    requires Reachable(w, size, quota) && Step(w, p, e, w', size, quota)
    ensures Reachable(w', size, quota)
  {
    var run :| Run(run, size, quota) && run[|run| - 1] == w;
    var longer := run + [w'];
    assert Moves(w, w', size, quota);
    forall i | 0 <= i < |longer| - 1 ensures Moves(longer[i], longer[i + 1], size, quota) {
      if i < |run| - 1 { assert longer[i] == run[i] && longer[i + 1] == run[i + 1]; }
    }
    assert Run(longer, size, quota) && longer[|longer| - 1] == w';
  }

  lemma {:induction false} NewBlock(blocks: seq<nat>) returns (no: nat)
    ensures forall i :: 0 <= i < |blocks| ==> blocks[i] < no
  {
    if blocks == [] {
      no := 0;
    } else {
      no := NewBlock(blocks[1..]);
      no := if no <= blocks[0] then blocks[0] + 1 else no;
    }
  }

  /** Process p logs k more new blocks, unless log_write panics on the way. */
  lemma {:induction false} Fill(w: World, p: nat, k: nat, size: nat, quota: nat) returns (w': World)
    requires Reachable(w, size, quota) && p < |w.procs| && w.procs[p].Working? && !w.procs[p].tested && w.s.outstanding > 0
    requires w.procs[p].added + k <= quota
    ensures Reachable(w', size, quota)
    ensures (PanicsAt(w', p, size) && |w'.s.blocks| < |w.s.blocks| + k && w'.s.outstanding > 0) ||
            (w'.procs == w.procs[p := Working(w.procs[p].added + k, false)] &&
            |w'.s.blocks| == |w.s.blocks| + k && w'.s.outstanding == w.s.outstanding && w'.s.committing == w.s.committing)
    decreases k
  {
    if k == 0 || w.s.LogPanics(size) {
      w' := w;
    } else {
      var no := NewBlock(w.s.blocks);
      var tested := World(w.s, w.procs[p := Working(w.procs[p].added, true)]);
      assert Step(w, p, Test, tested, size, quota);
      ReachStep(w, p, Test, tested, size, quota);
      var next := World(w.s.Log(no), tested.procs[p := Working(w.procs[p].added + 1, false)]);
      assert Step(tested, p, Append(no), next, size, quota);
      ReachStep(tested, p, Append(no), next, size, quota);
      w' := Fill(next, p, k - 1, size, quota);
    }
  }

  /** While process 0 stays in its operation, process 1 fills the log up to goal blocks. */
  lemma {:induction false} FillBeside(w: World, goal: nat, size: nat, quota: nat) returns (w': World, p: nat)
    requires 1 <= quota && Reachable(w, size, quota) && w.procs == [Working(0, false), Idle]
    requires w.s.outstanding == 1 && !w.s.committing && |w.s.blocks| <= goal <= MAXOPBLOCKS
    ensures Reachable(w', size, quota)
    ensures (PanicsAt(w', p, size) && |w'.s.blocks| < goal && w'.s.outstanding > 0) ||
            (w'.procs == [Working(0, false), Idle] && w'.s.outstanding == 1 && !w'.s.committing && |w'.s.blocks| == goal)
    decreases goal - |w.s.blocks|
  {
    p := 1;
    if |w.s.blocks| == goal {
      w' := w;
    } else {
      var room := goal - |w.s.blocks|;
      var a := World(w.s.Begin(), [Working(0, false), Working(0, false)]);
      assert Step(w, 1, BeginOp, a, size, quota);
      ReachStep(w, 1, BeginOp, a, size, quota);
      var b := Fill(a, 1, if quota < room then quota else room, size, quota);
      if PanicsAt(b, 1, size) && |b.s.blocks| < goal {
        w' := b;
      } else {
        var c := World(b.s.End(), [Working(0, false), Idle]);
        assert Step(b, 1, EndOp, c, size, quota);
        ReachStep(b, 1, EndOp, c, size, quota);
        w', p := FillBeside(c, goal, size, quota);
      }
    }
  }

  lemma OneWorker(size: nat, quota: nat) returns (w: World)
    ensures Reachable(w, size, quota) && w == World(Shared([], 1, false), [Working(0, false), Idle])
  {
    var w0 := World(Shared([], 0, false), [Idle, Idle]);
    assert Run([w0], size, quota) && [w0][|[w0]| - 1] == w0;
    w := World(w0.s.Begin(), [Working(0, false), Idle]);
    assert Step(w0, 0, BeginOp, w, size, quota);
    ReachStep(w0, 0, BeginOp, w, size, quota);
  }

  lemma FullLog(size: nat, quota: nat) returns (w: World, p: nat)
    requires 1 <= quota <= MAXOPBLOCKS && (Bound(quota) >= LOGSIZE || Bound(quota) + 1 >= size)
    ensures Reachable(w, size, quota) && PanicsAt(w, p, size)
  {
    var w1 := OneWorker(size, quota);
    w, p := FillBeside(w1, MAXOPBLOCKS, size, quota);
    if !PanicsAt(w, p, size) {
      var w2 := World(w.s.Begin(), [Working(0, false), Working(0, false)]);
      assert Step(w, 1, BeginOp, w2, size, quota);
      ReachStep(w, 1, BeginOp, w2, size, quota);
      w := Fill(w2, 0, quota, size, quota);
      p := 0;
      if !PanicsAt(w, 0, size) {
        w := Fill(w, 1, quota, size, quota);
        p := 1;
      }
    }
  }

  // ---- exactly when the list outgrows the log ----

  /** Some reachable state lists more blocks than the log has behind its header. */
  ghost predicate Outgrows(size: nat, quota: nat) {
    exists w: World :: Reachable(w, size, quota) && |w.s.blocks| >= size
  }

  /** Because log_write tests before it takes the lock, two processes can pass the test with one place left: the guard keeps
      the list within the log exactly if the operations alone do, or if it lets nobody pass. */
  lemma OutgrowsExactly(size: nat, quota: nat)
    requires 1 <= quota <= MAXOPBLOCKS && size >= 1
    ensures Outgrows(size, quota) <==> 2 <= size <= Bound(quota)
  {
    if Outgrows(size, quota) {
      var w: World :| Reachable(w, size, quota) && |w.s.blocks| >= size;
      ReachableInv(w, size, quota);
      UnusedBounds(w.procs, quota);
      if size == 1 { NothingLogged(w, quota); }
    }
    if 2 <= size <= Bound(quota) {
      var w := Overrun(size, quota);
      assert Reachable(w, size, quota) && |w.s.blocks| >= size;
    }
  }

  /** On a log of its header alone nobody passes the tests of log_write. */
  lemma {:induction false} RunLogsNothing(run: seq<World>, quota: nat)
    requires Run(run, 1, quota)
    ensures var w := run[|run| - 1];
            w.s.blocks == [] && forall p :: 0 <= p < |w.procs| && w.procs[p].Working? ==> !w.procs[p].tested
  {
    if |run| > 1 {
      RunLogsNothing(run[..|run| - 1], quota);
      assert Moves(run[|run| - 2], run[|run| - 2 + 1], 1, quota);
    }
  }

  lemma NothingLogged(w: World, quota: nat)
    requires Reachable(w, 1, quota)
    ensures w.s.blocks == []
  {
    var run :| Run(run, 1, quota) && run[|run| - 1] == w;
    RunLogsNothing(run, quota);
  }

  /** Two operations bring the list to two blocks less than size, both pass the test, and both list a block. */
  lemma Overrun(size: nat, quota: nat) returns (w: World)
    requires 1 <= quota <= MAXOPBLOCKS && 2 <= size <= Bound(quota)
    ensures Reachable(w, size, quota) && |w.s.blocks| == size
  {
    var first := if size - 2 < MAXOPBLOCKS then size - 2 else MAXOPBLOCKS;
    var left := size - 2 - first;
    var k := if left < quota - 1 then left else quota - 1;
    var w1 := OneWorker(size, quota);
    var w2, q := FillBeside(w1, first, size, quota);
    var w3 := World(w2.s.Begin(), [Working(0, false), Working(0, false)]);
    assert Step(w2, 1, BeginOp, w3, size, quota);
    ReachStep(w2, 1, BeginOp, w3, size, quota);
    var w4 := Fill(w3, 0, k, size, quota);
    var w5 := Fill(w4, 1, left - k, size, quota);
    w := BothAppend(w5, k, left - k, size, quota);
  }

  lemma BothAppend(w: World, a: nat, b: nat, size: nat, quota: nat) returns (w': World)
    requires Reachable(w, size, quota) && w.procs == [Working(a, false), Working(b, false)] && w.s.outstanding > 0
    requires a < quota && b < quota && |w.s.blocks| < LOGSIZE && |w.s.blocks| + 2 == size
    ensures Reachable(w', size, quota) && |w'.s.blocks| == size
  {
    var x := NewBlock(w.s.blocks);
    var w1 := World(w.s, [Working(a, true), Working(b, false)]);
    assert Step(w, 0, Test, w1, size, quota);
    ReachStep(w, 0, Test, w1, size, quota);
    var w2 := World(w.s, [Working(a, true), Working(b, true)]);
    assert Step(w1, 1, Test, w2, size, quota);
    ReachStep(w1, 1, Test, w2, size, quota);
    var w3 := World(w2.s.Log(x), [Working(a + 1, false), Working(b, true)]);
    assert Step(w2, 0, Append(x), w3, size, quota);
    ReachStep(w2, 0, Append(x), w3, size, quota);
    assert w3.s.blocks == w.s.blocks + [x] && x + 1 !in w3.s.blocks;
    w' := World(w3.s.Log(x + 1), [Working(a + 1, false), Working(b + 1, false)]);
    assert Step(w3, 1, Append(x + 1), w', size, quota);
    ReachStep(w3, 1, Append(x + 1), w', size, quota);
  }

  /** On the log of mkfs operations of MAXOPBLOCKS blocks can list LOGSIZE of them, one more than it has room for, and those
      of 9 blocks cannot.  The last of n listed blocks goes to a block of the log exactly if n is less than its size: the
      one too many goes to the first block behind it. */
  lemma MkfsOutgrown(g: Geometry, n: nat)
    requires n >= 1
    ensures Outgrows(LOGSIZE, MAXOPBLOCKS) && !Outgrows(LOGSIZE, 9)
    ensures g.InLog(g.Slot(n - 1)) <==> n < g.size
    ensures n == g.size ==> g.Slot(n - 1) == g.Home(g.start + g.size)
  {
    OutgrowsExactly(LOGSIZE, MAXOPBLOCKS);
    OutgrowsExactly(LOGSIZE, 9);
  }
}
