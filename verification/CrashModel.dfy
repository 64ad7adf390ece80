/**
 What the log leaves on disk, without caches or loops: the disks between the
 block writes of a commit and of a recovery, and what recovery makes of them.
 */
module CrashModel {
  import opened Blocks
  import opened BufferCache

  const MAXOPBLOCKS: nat := 10
  const LOGSIZE: nat := 30

  /** log.dev, log.start, log.size: a header block followed by size - 1 log blocks. */
  datatype Geometry = Geometry(dev: nat, start: nat, size: nat) {
    function Header(): Addr { Addr(dev, start) }
    function Slot(i: nat): Addr { Addr(dev, start + i + 1) }
    function Home(no: nat): Addr { Addr(dev, no) }
    predicate InLog(a: Addr) { a.dev == dev && start <= a.no < start + size }
    predicate On(d: Disk) {
      dev != 0 && size >= 1 && forall i :: start <= i < start + size ==> Addr(dev, i) in d
    }
  }

  function At(d: Disk, a: Addr): Block {
    if a in d then d[a] else Zeros()
  }

  /** Home block numbers that can be logged. */
  ghost predicate Loggable(g: Geometry, d: Disk, blocks: seq<nat>) {
    && |blocks| <= LOGSIZE && |blocks| < g.size
    && forall i :: 0 <= i < |blocks| ==> blocks[i] < WORD_LIMIT && g.Home(blocks[i]) in d && !g.InLog(g.Home(blocks[i]))
  }

  ghost predicate Distinct(blocks: seq<nat>) {
    forall i, j :: 0 <= i < j < |blocks| ==> blocks[i] != blocks[j]
  }

  ghost predicate SameHome(g: Geometry, d: Disk, e: Disk) {
    d.Keys == e.Keys && forall a :: a in d && !g.InLog(a) ==> d[a] == e[a]
  }

  // ---- the header block ----

  function Count(h: Block): nat { Word(h, 0) }

  /** The destinations that read_head finds; a count above LOGSIZE is never written. */
  function Dests(h: Block): seq<nat> {
    if Count(h) > LOGSIZE then [] else seq(Count(h), i requires 0 <= i < Count(h) => Word(h, i + 1))
  }

  /** hb->n = |blocks| and the first k iterations of the loop of write_head. */
  function PutHeader(h: Block, blocks: seq<nat>, k: nat): Block
    requires k <= |blocks| <= LOGSIZE
  {
    if k == 0 then SetWord(h, 0, |blocks|) else SetWord(PutHeader(h, blocks, k - 1), k, blocks[k - 1])
  }

  lemma {:induction false} HeaderWords(h: Block, blocks: seq<nat>, k: nat)
    requires k <= |blocks| <= LOGSIZE && forall i :: 0 <= i < |blocks| ==> blocks[i] < WORD_LIMIT
    ensures Count(PutHeader(h, blocks, k)) == |blocks|
    ensures forall i :: 0 <= i < k ==> Word(PutHeader(h, blocks, k), i + 1) == blocks[i]
  {
    if k == 0 {
      WordAfterSet(h, 0, |blocks|, 0);
    } else {
      HeaderWords(h, blocks, k - 1);
      var h' := PutHeader(h, blocks, k - 1);
      WordAfterSet(h', k, blocks[k - 1], 0);
      forall i | 0 <= i < k ensures Word(PutHeader(h, blocks, k), i + 1) == blocks[i] {
        WordAfterSet(h', k, blocks[k - 1], i + 1);
      }
    }
  }

  lemma HeaderReads(h: Block, blocks: seq<nat>)
    requires Count(h) == |blocks| <= LOGSIZE && forall i :: 0 <= i < |blocks| ==> Word(h, i + 1) == blocks[i]
    ensures Dests(h) == blocks
  {
    hide Word, Count;
    assert |Dests(h)| == |blocks|;
    forall i | 0 <= i < |blocks| ensures Dests(h)[i] == blocks[i] {
      assert Word(h, i + 1) == blocks[i];
    }
  }

  /** A header written by write_head reads back as the blocks it was written from. */
  lemma HeaderRoundTrip(h: Block, blocks: seq<nat>)
    requires |blocks| <= LOGSIZE && forall i :: 0 <= i < |blocks| ==> blocks[i] < WORD_LIMIT
    ensures Count(PutHeader(h, blocks, |blocks|)) == |blocks|
    ensures Dests(PutHeader(h, blocks, |blocks|)) == blocks
  {
    HeaderWords(h, blocks, |blocks|);
    HeaderReads(PutHeader(h, blocks, |blocks|), blocks);
    hide *;
  }

  /** What write_head writes when the log is empty. */
  function Cleared(h: Block): Block {
    SetWord(h, 0, 0)
  }

  lemma ClearedHeader(h: Block)
    ensures Count(Cleared(h)) == 0 && Dests(Cleared(h)) == []
  {
    WordAfterSet(h, 0, 0, 0);
  }

  // ---- recovery ----

  /** d after install_trans has copied the first k log blocks to their homes. */
  ghost function Install(g: Geometry, d: Disk, blocks: seq<nat>, k: nat): Disk
    requires k <= |blocks|
  {
    if k == 0 then d else Install(g, d, blocks, k - 1)[g.Home(blocks[k - 1]) := At(d, g.Slot(k - 1))]
  }

  ghost function Pending(g: Geometry, d: Disk): seq<nat> {
    Dests(At(d, g.Header()))
  }

  /** What a complete recover_from_log makes of d. */
  ghost function Recover(g: Geometry, d: Disk): Disk {
    var b := Pending(g, d);
    Install(g, d, b, |b|)[g.Header() := Cleared(At(d, g.Header()))]
  }

  /** The disks after the first k block writes of install_trans. */
  ghost function InstallTrace(g: Geometry, d: Disk, blocks: seq<nat>, k: nat): (t: seq<Disk>)
    requires k <= |blocks|
    ensures |t| == k
  {
    if k == 0 then [] else InstallTrace(g, d, blocks, k - 1) + [Install(g, d, blocks, k)]
  }

  lemma {:induction false} InstallTraceAt(g: Geometry, d: Disk, blocks: seq<nat>, k: nat, i: nat)
    requires i < k <= |blocks|
    ensures InstallTrace(g, d, blocks, k)[i] == Install(g, d, blocks, i + 1)
  {
    if i < k - 1 { InstallTraceAt(g, d, blocks, k - 1, i); }
  }

  /** The disk after each block write of recover_from_log on d. */
  ghost function RecoverTrace(g: Geometry, d: Disk): seq<Disk> {
    InstallTrace(g, d, Pending(g, d), |Pending(g, d)|) + [Recover(g, d)]
  }

  /** A disk that a crash during recover_from_log on d can leave. */
  ghost predicate RecoveryPoint(g: Geometry, d: Disk, e: Disk) {
    e == d || e in RecoverTrace(g, d)
  }

  /** The header names only blocks that can be logged. */
  ghost predicate Recoverable(g: Geometry, d: Disk) {
    g.On(d) && Count(At(d, g.Header())) <= LOGSIZE && Loggable(g, d, Pending(g, d))
  }

  lemma {:induction false} InstallKeeps(g: Geometry, d: Disk, blocks: seq<nat>, k: nat)
    requires Loggable(g, d, blocks) && k <= |blocks|
    ensures Install(g, d, blocks, k).Keys == d.Keys
    ensures forall a :: g.InLog(a) && a in d ==> Install(g, d, blocks, k)[a] == d[a]
  {
    if k > 0 { InstallKeeps(g, d, blocks, k - 1); }
  }

  /** The last of the first k positions that hold block no, or k if there is none. */
  function LastOf(blocks: seq<nat>, k: nat, no: nat): (i: nat)
    requires k <= |blocks|
    ensures i < k ==> blocks[i] == no
    ensures i >= k ==> i == k && no !in blocks[..k]
  {
    if k == 0 then 0
    else if blocks[k - 1] == no then k - 1
    else var i := LastOf(blocks, k - 1, no); if i < k - 1 then i else k
  }

  lemma {:induction false} InstallAt(g: Geometry, d: Disk, blocks: seq<nat>, k: nat, a: Addr)
    requires k <= |blocks|
    ensures At(Install(g, d, blocks, k), a) ==
            if a.dev == g.dev && LastOf(blocks, k, a.no) < k then At(d, g.Slot(LastOf(blocks, k, a.no))) else At(d, a)
  {
    if k > 0 {
      InstallAt(g, d, blocks, k - 1, a);
    }
  }

  /** Installing again over a partial installation gives the same blocks. */
  lemma InstallAgain(g: Geometry, d: Disk, blocks: seq<nat>, k: nat, a: Addr)
    requires g.On(d) && Loggable(g, d, blocks) && k <= |blocks|
    ensures At(Install(g, Install(g, d, blocks, k), blocks, |blocks|), a) == At(Install(g, d, blocks, |blocks|), a)
  {
    var n, e := |blocks|, Install(g, d, blocks, k);
    InstallAt(g, e, blocks, n, a);
    InstallAt(g, d, blocks, n, a);
    InstallAt(g, d, blocks, k, a);
    InstallKeeps(g, d, blocks, k);
    hide Install;
    if LastOf(blocks, k, a.no) < k {
      assert blocks[..n][LastOf(blocks, k, a.no)] == a.no;
    }
  }

  lemma SameHomeByAt(g: Geometry, d: Disk, e: Disk)
    requires d.Keys == e.Keys && forall a :: a in d && !g.InLog(a) ==> At(d, a) == At(e, a)
    ensures SameHome(g, d, e)
  {
    forall a | a in d && !g.InLog(a) ensures d[a] == e[a] { assert At(d, a) == At(e, a); }
  }

  lemma PointInInstall(g: Geometry, d: Disk, e: Disk) returns (k: nat)
    requires RecoveryPoint(g, d, e) && e != Recover(g, d)
    ensures k <= |Pending(g, d)| && e == Install(g, d, Pending(g, d), k)
  {
    k := 0;
    if e != d {
      var b := Pending(g, d);
      var t := InstallTrace(g, d, b, |b|);
      hide Install, InstallTrace, Recover, Pending;
      assert e in t;
      var i: nat :| i < |t| && t[i] == e;
      InstallTraceAt(g, d, b, |b|, i);
      k := i + 1;
    }
  }

  lemma PartialRestarts(g: Geometry, d: Disk, k: nat)
    requires Recoverable(g, d) && k <= |Pending(g, d)|
    ensures var e := Install(g, d, Pending(g, d), k);
            Recoverable(g, e) && SameHome(g, Recover(g, e), Recover(g, d))
  {
    var b := Pending(g, d);
    var e := Install(g, d, b, k);
    InstallKeeps(g, d, b, |b|);
    InstallKeeps(g, d, b, k);
    assert At(e, g.Header()) == At(d, g.Header()) && Pending(g, e) == b;
    InstallKeeps(g, e, b, |b|);
    assert Recoverable(g, e);
    forall a | a in d && !g.InLog(a) ensures At(Recover(g, e), a) == At(Recover(g, d), a) {
      hide Install, Loggable, Dests, Count;
      InstallAgain(g, d, b, k, a);
    }
    SameHomeByAt(g, Recover(g, e), Recover(g, d));
  }

  /** Recovery can be interrupted anywhere and started again. */
  lemma RecoveryRestarts(g: Geometry, d: Disk, e: Disk)
    requires Recoverable(g, d) && RecoveryPoint(g, d, e)
    ensures Recoverable(g, e) && SameHome(g, Recover(g, e), Recover(g, d))
  {
    if e == Recover(g, d) {
      var b := Pending(g, d);
      InstallKeeps(g, d, b, |b|);
      ClearedHeader(At(d, g.Header()));
      assert Install(g, e, [], 0) == e;
      hide Install, Cleared, RecoveryPoint, Count, Dests;
    } else {
      var k := PointInInstall(g, d, e);
      PartialRestarts(g, d, k);
      hide Recover, Recoverable, RecoveryPoint, Pending;
    }
  }

  // ---- commit ----

  /** d after write_log has written the first k log blocks. */
  ghost function Logged(g: Geometry, d: Disk, data: seq<Block>, k: nat): Disk
    requires k <= |data|
  {
    if k == 0 then d else Logged(g, d, data, k - 1)[g.Slot(k - 1) := data[k - 1]]
  }

  lemma {:induction false} LoggedKeeps(g: Geometry, d: Disk, data: seq<Block>, k: nat)
    requires g.On(d) && k <= |data| < g.size
    ensures Logged(g, d, data, k).Keys == d.Keys
    ensures forall a :: a in d && (!g.InLog(a) || a == g.Header()) ==> Logged(g, d, data, k)[a] == d[a]
    ensures forall i :: 0 <= i < k ==> At(Logged(g, d, data, k), g.Slot(i)) == data[i]
  {
    if k > 0 { LoggedKeeps(g, d, data, k - 1); }
  }

  /** The disks after the first k block writes of write_log. */
  ghost function LogTrace(g: Geometry, d: Disk, data: seq<Block>, k: nat): (t: seq<Disk>)
    requires k <= |data|
    ensures |t| == k
  {
    if k == 0 then [] else LogTrace(g, d, data, k - 1) + [Logged(g, d, data, k)]
  }

  lemma {:induction false} LogTraceAt(g: Geometry, d: Disk, data: seq<Block>, k: nat, i: nat)
    requires i < k <= |data|
    ensures LogTrace(g, d, data, k)[i] == Logged(g, d, data, i + 1)
  {
    if i < k - 1 { LogTraceAt(g, d, data, k - 1, i); }
  }

  /** The commit point: every log block and the header are on disk. */
  ghost function Sealed(g: Geometry, d: Disk, blocks: seq<nat>, data: seq<Block>): Disk
    requires |blocks| == |data| <= LOGSIZE
  {
    Logged(g, d, data, |data|)[g.Header() := PutHeader(At(d, g.Header()), blocks, |blocks|)]
  }

  /** What is on disk once the header is written: the number of blocks and their numbers as 32-bit words, least significant
      byte first, in block start; and block start + 1 + i of the log holds what goes to the i-th of them. */
  lemma SealedOnDisk(g: Geometry, d: Disk, blocks: seq<nat>, data: seq<Block>)
    requires g.On(d) && |blocks| == |data| < g.size && |blocks| <= LOGSIZE
    requires forall i :: 0 <= i < |blocks| ==> blocks[i] < WORD_LIMIT
    ensures var e := Sealed(g, d, blocks, data);
            && Addr(g.dev, g.start) in e && Number4(e[Addr(g.dev, g.start)], 0) == |blocks|
            && (forall i :: 0 <= i < |blocks| ==> Number4(e[Addr(g.dev, g.start)], 4 + 4 * i) == blocks[i])
            && forall i :: 0 <= i < |blocks| ==> Addr(g.dev, g.start + 1 + i) in e && e[Addr(g.dev, g.start + 1 + i)] == data[i]
  {
    LoggedKeeps(g, d, data, |data|);
    HeaderWords(At(d, g.Header()), blocks, |blocks|);
    var h := PutHeader(At(d, g.Header()), blocks, |blocks|);
    hide Logged, PutHeader, Word;
    WordIsNumber4(h, 0);
    forall i | 0 <= i < |blocks| ensures Number4(h, 4 + 4 * i) == blocks[i] { WordIsNumber4(h, i + 1); }
    forall i | 0 <= i < |blocks| ensures At(Logged(g, d, data, |data|), Addr(g.dev, g.start + 1 + i)) == data[i] {
      assert g.Slot(i) == Addr(g.dev, g.start + 1 + i);
    }
  }

  /** The disk after a complete commit. */
  ghost function Committed(g: Geometry, d: Disk, blocks: seq<nat>, data: seq<Block>): Disk
    requires |blocks| == |data| <= LOGSIZE
  {
    var s := Sealed(g, d, blocks, data);
    Install(g, s, blocks, |blocks|)[g.Header() := Cleared(At(s, g.Header()))]
  }

  /** The disk after each block write of commit, in order. */
  ghost function CommitTrace(g: Geometry, d: Disk, blocks: seq<nat>, data: seq<Block>): (t: seq<Disk>)
    requires |blocks| == |data| <= LOGSIZE
    ensures |t| == 2 * |blocks| + 2
  {
    var s := Sealed(g, d, blocks, data);
    LogTrace(g, d, data, |data|) + [s] + InstallTrace(g, s, blocks, |blocks|) + [Committed(g, d, blocks, data)]
  }

  /** The disk a crash leaves after the first k block writes of a commit. */
  ghost function CommitPoint(g: Geometry, d: Disk, blocks: seq<nat>, data: seq<Block>, k: nat): Disk
    requires |blocks| == |data| <= LOGSIZE && k <= 2 * |blocks| + 2
  {
    if k == 0 then d else CommitTrace(g, d, blocks, data)[k - 1]
  }

  lemma CommitLogging(g: Geometry, d: Disk, blocks: seq<nat>, data: seq<Block>, k: nat)
    requires k <= |blocks| == |data| <= LOGSIZE
    ensures CommitPoint(g, d, blocks, data, k) == Logged(g, d, data, k)
  {
    if k > 0 {
      LogTraceAt(g, d, data, |data|, k - 1);
      hide Logged, LogTrace, Install, InstallTrace, Sealed;
    }
  }

  lemma CommitInstalling(g: Geometry, d: Disk, blocks: seq<nat>, data: seq<Block>, k: nat)
    requires |blocks| == |data| <= LOGSIZE && |blocks| < k <= 2 * |blocks| + 1
    ensures CommitPoint(g, d, blocks, data, k) == Install(g, Sealed(g, d, blocks, data), blocks, k - |blocks| - 1)
  {
    var n, s := |blocks|, Sealed(g, d, blocks, data);
    if k > n + 1 {
      InstallTraceAt(g, s, blocks, n, k - n - 2);
    } else {
      assert Install(g, s, blocks, 0) == s;
    }
    hide Logged, LogTrace, Install, InstallTrace, Sealed;
  }

  /** A transaction and the disk it starts from. */
  ghost predicate Startable(g: Geometry, d: Disk, blocks: seq<nat>, data: seq<Block>) {
    g.On(d) && Count(At(d, g.Header())) == 0 && Loggable(g, d, blocks) && |data| == |blocks|
  }

  /** d with the whole transaction applied to the home blocks. */
  ghost function Applied(g: Geometry, d: Disk, blocks: seq<nat>, data: seq<Block>): Disk
    requires |blocks| == |data|
  {
    map a | a in d :: if a.dev == g.dev && LastOf(blocks, |blocks|, a.no) < |blocks|
                      then data[LastOf(blocks, |blocks|, a.no)] else d[a]
  }

  lemma SealedIsRecoverable(g: Geometry, d: Disk, blocks: seq<nat>, data: seq<Block>)
    requires Startable(g, d, blocks, data)
    ensures Sealed(g, d, blocks, data).Keys == d.Keys
    ensures Recoverable(g, Sealed(g, d, blocks, data)) && Pending(g, Sealed(g, d, blocks, data)) == blocks
  {
    LoggedKeeps(g, d, data, |data|);
    HeaderRoundTrip(At(d, g.Header()), blocks);
    hide Logged, PutHeader, Dests, Count;
  }

  lemma SealedIsApplied(g: Geometry, d: Disk, blocks: seq<nat>, data: seq<Block>)
    requires Startable(g, d, blocks, data)
    ensures SameHome(g, Recover(g, Sealed(g, d, blocks, data)), Applied(g, d, blocks, data))
  {
    var s := Sealed(g, d, blocks, data);
    SealedIsRecoverable(g, d, blocks, data);
    LoggedKeeps(g, d, data, |data|);
    InstallKeeps(g, s, blocks, |blocks|);
    hide Logged, PutHeader, Startable, Recoverable;
    forall a | a in d && !g.InLog(a) ensures At(Recover(g, s), a) == At(Applied(g, d, blocks, data), a) {
      InstallAt(g, s, blocks, |blocks|, a);
      hide Install;
    }
    hide Install;
    SameHomeByAt(g, Recover(g, s), Applied(g, d, blocks, data));
  }

  /** From the header write on, the disk is one that a crash in a recovery can leave. */
  lemma CommitIsRecovery(g: Geometry, d: Disk, blocks: seq<nat>, data: seq<Block>, k: nat)
    requires Startable(g, d, blocks, data) && |blocks| < k <= 2 * |blocks| + 2
    ensures RecoveryPoint(g, Sealed(g, d, blocks, data), CommitPoint(g, d, blocks, data, k))
  {
    var n, s := |blocks|, Sealed(g, d, blocks, data);
    SealedIsRecoverable(g, d, blocks, data);
    var e, t := CommitPoint(g, d, blocks, data, k), RecoverTrace(g, s);
    if k == 2 * n + 2 {
      hide Logged, LogTrace, Install, InstallTrace, Sealed, Pending, Recoverable, Startable;
      assert t[n] == e;
    } else {
      CommitInstalling(g, d, blocks, data, k);
      hide CommitPoint, Sealed, Pending, Recoverable, Startable;
      if k > n + 1 {
        InstallTraceAt(g, s, blocks, n, k - n - 2);
        hide Install, InstallTrace;
        assert t[k - n - 2] == e;
      }
    }
  }

  /** The header write is the commit point. */
  lemma RecoverCommitPoint(g: Geometry, d: Disk, blocks: seq<nat>, data: seq<Block>, k: nat)
    requires Startable(g, d, blocks, data) && k <= 2 * |blocks| + 2
    ensures var e := CommitPoint(g, d, blocks, data, k);
            Recoverable(g, e) &&
            SameHome(g, Recover(g, e), if k <= |blocks| then d else Applied(g, d, blocks, data))
  {
    var s, e := Sealed(g, d, blocks, data), CommitPoint(g, d, blocks, data, k);
    if k <= |blocks| {
      CommitLogging(g, d, blocks, data, k);
      LoggedKeeps(g, d, data, k);
    } else {
      SealedIsRecoverable(g, d, blocks, data);
      SealedIsApplied(g, d, blocks, data);
      CommitIsRecovery(g, d, blocks, data, k);
      RecoveryRestarts(g, s, e);
      hide Sealed, CommitPoint, Recover, Applied, RecoveryPoint, Recoverable;
    }
  }

  // ---- any number of crashes ----

  /** Each disk is left by a crash during a recovery of the one before it. */
  ghost predicate CrashChain(g: Geometry, chain: seq<Disk>) {
    forall i :: 0 <= i < |chain| - 1 ==> RecoveryPoint(g, chain[i], chain[i + 1])
  }

  lemma {:induction false} ChainRecovers(g: Geometry, chain: seq<Disk>)
    requires |chain| > 0 && Recoverable(g, chain[0]) && CrashChain(g, chain)
    ensures Recoverable(g, chain[|chain| - 1])
    ensures SameHome(g, Recover(g, chain[|chain| - 1]), Recover(g, chain[0]))
  {
    hide RecoveryPoint, Recover, Recoverable;
    if |chain| > 1 {
      ChainRecovers(g, chain[..|chain| - 1]);
      RecoveryRestarts(g, chain[|chain| - 2], chain[|chain| - 1]);
    }
  }

  /**
   Crash atomicity: after a crash behind any of the block writes of a commit, any
   number of interrupted recoveries and a complete one, the home blocks are all
   as before the transaction, or all as logged; and which of the two depends only
   on whether the header had been written.
   */
  lemma CrashAtomicity(g: Geometry, d: Disk, blocks: seq<nat>, data: seq<Block>, k: nat, chain: seq<Disk>)
    requires Startable(g, d, blocks, data) && k <= 2 * |blocks| + 2
    requires |chain| > 0 && CrashChain(g, chain) && chain[0] == CommitPoint(g, d, blocks, data, k)
    ensures var last := chain[|chain| - 1];
            && Recoverable(g, last)
            && SameHome(g, Recover(g, last), if k <= |blocks| then d else Applied(g, d, blocks, data))
            && Count(At(Recover(g, last), g.Header())) == 0
  {
    RecoverCommitPoint(g, d, blocks, data, k);
    ChainRecovers(g, chain);
    ClearedHeader(At(chain[|chain| - 1], g.Header()));
    hide Recoverable, CommitPoint, Applied, RecoveryPoint, Install, Cleared, Count;
  }

  /** No home block changes on disk before the header write. */
  lemma NoEarlyInstall(g: Geometry, d: Disk, blocks: seq<nat>, data: seq<Block>, k: nat)
    requires Startable(g, d, blocks, data) && k <= |blocks| + 1
    ensures SameHome(g, CommitPoint(g, d, blocks, data, k), d)
  {
    if k <= |blocks| { CommitLogging(g, d, blocks, data, k); } else { CommitInstalling(g, d, blocks, data, k); }
    LoggedKeeps(g, d, data, |data|);
    LoggedKeeps(g, d, data, if k <= |data| then k else 0);
  }
}
