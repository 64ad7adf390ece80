/**
 What a program expects of its memory: one array of bytes that sbrk extends with zeros.
 */
module FlatMemory {
  import opened Basics
  import opened PagingModel

  const KERNBASE: nat := 0x8000_0000

  /** The number of pages that sz bytes need. */
  function Pages(sz: nat): nat { (sz + PGSIZE - 1) / PGSIZE }

  datatype Op = Sbrk(n: nat) | Load(a: nat) | Store(a: nat, b: byte)
  datatype Answer = Grown | Refused | Loaded(b: byte) | Stored | Killed

  /** The size of the process, and the bytes up to the end of its last page. */
  datatype Flat = Flat(sz: nat, bytes: seq<byte>)

  function Nulls(n: nat): seq<byte> { seq(n, _ => 0) }

  function Step(s: Flat, op: Op): (Flat, Answer) {
    match op
    case Sbrk(n) =>
      if n > 0 && s.sz + n >= KERNBASE then (s, Refused)
      else
        var more := Pages(s.sz + n) * PGSIZE - |s.bytes|;
        (Flat(s.sz + n, s.bytes + Nulls(if more > 0 then more else 0)), Grown)
    case Load(a) => (s, if a < |s.bytes| then Loaded(s.bytes[a]) else Killed)
    case Store(a, b) => if a < |s.bytes| then (s.(bytes := s.bytes[a := b]), Stored) else (s, Killed)
  }

  /** The answers to a run of operations; a killed process answers nothing more. */
  function Run(s: Flat, ops: seq<Op>): (Flat, seq<Answer>)
    decreases |ops|
  {
    if ops == [] then (s, [])
    else
      var (t, a) := Step(s, ops[0]);
      if a == Killed then (t, [a])
      else
        var (u, rest) := Run(t, ops[1..]);
        (u, [a] + rest)
  }

  lemma {:induction false} RunGrows(s: Flat, ops: seq<Op>)
    ensures Run(s, ops).0.sz >= s.sz
    decreases |ops|
  {
    if ops != [] { RunGrows(Step(s, ops[0]).0, ops[1..]); }
  }

  /** After k operations the memory is v and the answers are those given; the rest is still to come. */
  ghost predicate Partial(s: Flat, ops: seq<Op>, k: nat, v: Flat, answers: seq<Answer>)
    requires k <= |ops|
  {
    Run(s, ops) == (Run(v, ops[k..]).0, answers + Run(v, ops[k..]).1)
  }

  lemma PartialStart(s: Flat, ops: seq<Op>)
    ensures Partial(s, ops, 0, s, [])
  {
    assert ops[0..] == ops && [] + Run(s, ops).1 == Run(s, ops).1;
  }

  lemma PartialDone(s: Flat, ops: seq<Op>, v: Flat, answers: seq<Answer>)
    requires Partial(s, ops, |ops|, v, answers)
    ensures Run(s, ops) == (v, answers)
  {
    assert ops[|ops|..] == [] && answers + [] == answers;
  }

  lemma PartialStep(s: Flat, ops: seq<Op>, k: nat, v: Flat, answers: seq<Answer>)
    requires k < |ops| && Partial(s, ops, k, v, answers)
    ensures var (w, r) := Step(v, ops[k]);
            && (if r == Killed then Run(s, ops) == (w, answers + [r]) else Partial(s, ops, k + 1, w, answers + [r]))
            && w.sz <= Run(s, ops).0.sz
  {
    assert ops[k..][0] == ops[k] && ops[k..][1..] == ops[k + 1..];
    var (w, r) := Step(v, ops[k]);
    RunGrows(w, ops[k + 1..]);
    if r != Killed {
      assert answers + ([r] + Run(w, ops[k + 1..]).1) == answers + [r] + Run(w, ops[k + 1..]).1;
    }
  }

  /** The bytes of a row of pages. */
  ghost function BytesOf(pages: seq<Page>): (bytes: seq<byte>)
    ensures |bytes| == |pages| * PGSIZE
  {
    seq(|pages| * PGSIZE, a requires 0 <= a < |pages| * PGSIZE => pages[a / PGSIZE][a % PGSIZE])
  }

  ghost function ZeroPages(n: nat): seq<Page> { seq(n, _ => ZeroPage()) }

  lemma BytesPoke(pages: seq<Page>, a: nat, b: byte)
    requires a < |pages| * PGSIZE
    ensures BytesOf(pages[a / PGSIZE := pages[a / PGSIZE][a % PGSIZE := b]]) == BytesOf(pages)[a := b]
  {
    var after := pages[a / PGSIZE := pages[a / PGSIZE][a % PGSIZE := b]];
    forall c | 0 <= c < |pages| * PGSIZE ensures BytesOf(after)[c] == BytesOf(pages)[a := b][c] {
      if c / PGSIZE == a / PGSIZE && c % PGSIZE == a % PGSIZE { assert c == a; }
    }
  }

  lemma BytesAppend(pages: seq<Page>, n: nat)
    ensures BytesOf(pages + ZeroPages(n)) == BytesOf(pages) + Nulls(n * PGSIZE)
  {
    forall c | 0 <= c < (|pages| + n) * PGSIZE
      ensures BytesOf(pages + ZeroPages(n))[c] == (BytesOf(pages) + Nulls(n * PGSIZE))[c]
    {
    }
  }

  // ---- what a program can rely on, without Step and Run ----

  /** A load after a store answers the byte stored if it is the same address, and else what it would have answered. */
  lemma LoadAfterStore(s: Flat, a: nat, b: byte, c: nat)
    requires a < |s.bytes|
    ensures Step(Step(s, Store(a, b)).0, Load(c)).1 == if c == a then Loaded(b) else Step(s, Load(c)).1
    ensures Step(s, Load(a)).1 == Loaded(s.bytes[a])
  {
  }

  /** sbrk keeps every byte, and shows zeros behind them up to the end of the last page. */
  lemma SbrkShowsZeros(s: Flat, n: nat)
    requires s.sz + n < KERNBASE && |s.bytes| <= Pages(s.sz + n) * PGSIZE
    ensures var t := Step(s, Sbrk(n)).0;
            && t.sz == s.sz + n && |t.bytes| == Pages(s.sz + n) * PGSIZE
            && forall a :: 0 <= a < |t.bytes| ==> t.bytes[a] == if a < |s.bytes| then s.bytes[a] else 0
  {
  }

  /** What the last of the first k operations that stored at a has stored there, or old if none has. */
  function LastStored(ops: seq<Op>, k: nat, a: nat, before: byte): byte
    requires k <= |ops|
  {
    if k == 0 then before
    else if ops[k - 1].Store? && ops[k - 1].a == a then ops[k - 1].b
    else LastStored(ops, k - 1, a, before)
  }

  /** The size after the first k operations: sbrk is refused only at KERNBASE. */
  function SizeAfter(sz: nat, ops: seq<Op>, k: nat): nat
    requires k <= |ops|
  {
    if k == 0 then sz
    else
      var z := SizeAfter(sz, ops, k - 1);
      if ops[k - 1].Sbrk? && (ops[k - 1].n == 0 || z + ops[k - 1].n < KERNBASE) then z + ops[k - 1].n else z
  }

  /** The memory starts with whole pages up to its size. */
  predicate Whole(s: Flat) { |s.bytes| == Pages(s.sz) * PGSIZE }

  lemma RowIsWhole(sz: nat, pages: seq<Page>)
    requires |pages| == Pages(sz)
    ensures Whole(Flat(sz, BytesOf(pages)))
  {
  }

  function OldByte(s: Flat, a: nat): byte { if a < |s.bytes| then s.bytes[a] else 0 }

  /** The answer to operation k of a run that starts from s. */
  predicate RightAnswer(s: Flat, ops: seq<Op>, k: nat, r: Answer)
    requires k < |ops|
  {
    var end := Pages(SizeAfter(s.sz, ops, k)) * PGSIZE;
    match ops[k]
    case Load(a) => r == if a < end then Loaded(LastStored(ops, k, a, OldByte(s, a))) else Killed
    case Store(a, _) => r == if a < end then Stored else Killed
    case Sbrk(n) => r == if n == 0 || SizeAfter(s.sz, ops, k) + n < KERNBASE then Grown else Refused
  }

  /** The memory t after the first k operations from s: every address holds what was last stored there. */
  ghost predicate After(s: Flat, ops: seq<Op>, k: nat, t: Flat)
    requires k <= |ops|
  {
    t.sz == SizeAfter(s.sz, ops, k) && Whole(t) && forall a: nat :: OldByte(t, a) == LastStored(ops, k, a, OldByte(s, a))
  }

  /** The fewest pages with room for all bytes. */
  lemma PagesIs(sz: nat, n: nat)
    ensures n >= Pages(sz) <==> n * 4096 >= sz
  {
  }

  lemma PagesGrow(a: nat, b: nat)
    requires a <= b
    ensures Pages(a) <= Pages(b) && Pages(a) * PGSIZE <= Pages(b) * PGSIZE
  {
  }

  lemma StepRight(s: Flat, ops: seq<Op>, k: nat, t: Flat)
    requires k < |ops| && After(s, ops, k, t)
    ensures var (u, r) := Step(t, ops[k]);
            RightAnswer(s, ops, k, r) && if r == Killed then u == t else After(s, ops, k + 1, u)
  {
    hide Pages;
    var (u, r) := Step(t, ops[k]);
    if ops[k].Sbrk? && r == Grown { PagesGrow(t.sz, u.sz); }
    forall a: nat | r != Killed ensures OldByte(u, a) == LastStored(ops, k + 1, a, OldByte(s, a)) {
      assert OldByte(t, a) == LastStored(ops, k, a, OldByte(s, a));
    }
  }

  /** What the answers of the operations from k on have to be. */
  ghost predicate RightAnswers(s: Flat, ops: seq<Op>, k: nat, answers: seq<Answer>, t: Flat)
    requires k <= |ops|
  {
    && k + |answers| <= |ops|
    && (forall j :: 0 <= j < |answers| ==> RightAnswer(s, ops, k + j, answers[j]))
    && (forall j :: 0 <= j < |answers| - 1 ==> answers[j] != Killed)
    && if answers != [] && answers[|answers| - 1] == Killed then After(s, ops, k + |answers| - 1, t)
       else k + |answers| == |ops| && After(s, ops, |ops|, t)
  }

  lemma {:induction false} RunRightFrom(s: Flat, ops: seq<Op>, k: nat, t: Flat)
    requires k <= |ops| && After(s, ops, k, t)
    ensures RightAnswers(s, ops, k, Run(t, ops[k..]).1, Run(t, ops[k..]).0)
    decreases |ops| - k
  {
    hide Step, After, RightAnswer;
    if k < |ops| {
      StepRight(s, ops, k, t);
      var (u, r) := Step(t, ops[k]);
      assert ops[k..][0] == ops[k] && ops[k..][1..] == ops[k + 1..];
      if r != Killed {
        RunRightFrom(s, ops, k + 1, u);
        var rest := Run(u, ops[k + 1..]).1;
        var all := [r] + rest;
        assert Run(t, ops[k..]) == (Run(u, ops[k + 1..]).0, all);
        forall j | 0 <= j < |all| ensures RightAnswer(s, ops, k + j, all[j]) {
          if j > 0 { assert all[j] == rest[j - 1] && RightAnswer(s, ops, k + 1 + (j - 1), rest[j - 1]); }
        }
        forall j | 0 <= j < |all| - 1 ensures all[j] != Killed { if j > 0 { assert all[j] == rest[j - 1]; } }
        assert rest != [] ==> all[|all| - 1] == rest[|rest| - 1];
      }
    }
  }

  /** Every load of a run answers the byte last stored at its address, or what was there before, or 0 where the memory has
      grown; the run ends with the first access behind the memory; and the memory it leaves holds what was last stored. */
  lemma RunIsRight(s: Flat, ops: seq<Op>)
    requires Whole(s)
    ensures RightAnswers(s, ops, 0, Run(s, ops).1, Run(s, ops).0)
  {
    assert ops[0..] == ops;
    RunRightFrom(s, ops, 0, s);
  }
}
