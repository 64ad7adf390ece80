/**
 The ring buffer of a pipe, with its 32-bit counters, against the bytes written and read so far.
 */
module PipeModel {
  import opened Basics

  const PIPESIZE: nat := 512
  const UINT: nat := 0x1_0000_0000

  /** struct pipe, and the history of the bytes put in and taken out. */
  datatype Pipe = Pipe(data: seq<byte>, nread: nat, nwrite: nat, readopen: bool, writeopen: bool,
                       sent: seq<byte>, got: seq<byte>)

  function Plus(a: nat, b: nat): nat { (a + b) % UINT }

  predicate Full(p: Pipe) { p.nwrite == Plus(p.nread, PIPESIZE) }
  predicate Empty(p: Pipe) { p.nread == p.nwrite }

  /** The counters are the lengths of the histories modulo 2^32, the buffer holds what was put in and not taken out,
      and what was taken out is a prefix of what was put in. */
  ghost predicate Valid(p: Pipe) {
    && |p.data| == PIPESIZE && |p.got| <= |p.sent| <= |p.got| + PIPESIZE
    && p.nread == |p.got| % UINT && p.nwrite == |p.sent| % UINT
    && p.got == p.sent[..|p.got|]
    && forall k :: |p.got| <= k < |p.sent| ==> p.data[k % PIPESIZE] == p.sent[k]
  }

  lemma Residues(a: nat)
    ensures a % UINT % PIPESIZE == a % PIPESIZE && Plus(a % UINT, 1) == (a + 1) % UINT
  {
    assert a == a / UINT * UINT + a % UINT;
    assert a / UINT * UINT == a / UINT * (UINT / PIPESIZE) * PIPESIZE;
  }

  /** The tests of the code mean what they say, also after the counters have wrapped around. */
  lemma TestsExact(p: Pipe)
    requires Valid(p)
    ensures Full(p) <==> |p.sent| == |p.got| + PIPESIZE
    ensures Empty(p) <==> |p.sent| == |p.got|
    ensures (p.nwrite - p.nread) % UINT == |p.sent| - |p.got| <= PIPESIZE
  {
    var a, d := |p.got|, |p.sent| - |p.got|;
    assert a == a / UINT * UINT + a % UINT;
    assert |p.sent| == |p.sent| / UINT * UINT + |p.sent| % UINT;
  }

  lemma Sized(p: Pipe)
    requires Valid(p)
    ensures |p.data| == PIPESIZE
  {
  }

  function Put(p: Pipe, b: byte): Pipe
    requires |p.data| == PIPESIZE
  {
    p.(data := p.data[p.nwrite % PIPESIZE := b], nwrite := Plus(p.nwrite, 1), sent := p.sent + [b])
  }

  function First(p: Pipe): byte
    requires |p.data| == PIPESIZE
  {
    p.data[p.nread % PIPESIZE]
  }

  function Get(p: Pipe): Pipe
    requires |p.data| == PIPESIZE
  {
    p.(nread := Plus(p.nread, 1), got := p.got + [First(p)])
  }

  lemma SlotsApart(k: nat, n: nat)
    requires k < n < k + PIPESIZE
    ensures k % PIPESIZE != n % PIPESIZE
  {
  }

  lemma PutValid(p: Pipe, b: byte)
    requires Valid(p) && !Full(p)
    ensures Valid(Put(p, b))
  {
    TestsExact(p);
    Residues(|p.sent|);
    var q := Put(p, b);
    assert p.nwrite % PIPESIZE == |p.sent| % PIPESIZE;
    forall k | |q.got| <= k < |q.sent| ensures q.data[k % PIPESIZE] == q.sent[k] {
      if k < |p.sent| { SlotsApart(k, |p.sent|); }
    }
  }

  lemma GetValid(p: Pipe)
    requires Valid(p) && !Empty(p)
    ensures Valid(Get(p)) && First(p) == p.sent[|p.got|]
  {
    TestsExact(p);
    Residues(|p.got|);
    assert p.sent[..|p.got| + 1] == p.sent[..|p.got|] + [p.sent[|p.got|]];
  }

  class Buffer {
    const data: array<byte>
    var nread: nat
    var nwrite: nat
    var readopen: bool
    var writeopen: bool
    ghost var sent: seq<byte>
    ghost var got: seq<byte>

    ghost function View(): Pipe
      reads this, data
    {
      Pipe(data[..], nread, nwrite, readopen, writeopen, sent, got)
    }

    /** pipealloc */
    constructor ()
      ensures Valid(View()) && fresh(data)
      ensures readopen && writeopen && sent == [] && got == []
    {
      data := new byte[PIPESIZE];
      nread, nwrite, readopen, writeopen, sent, got := 0, 0, true, true, [], [];
    }

    /** The loop of pipewrite, from byte i until the buffer is full or all is written. */
    method Fill(addr: seq<byte>, i: nat) returns (j: nat)
      requires Valid(View()) && i <= |addr|
      modifies this`nwrite, this`sent, data
      ensures Valid(View()) && i <= j <= |addr| && sent == old(sent) + addr[i..j]
      ensures j == |addr| || |sent| == |got| + PIPESIZE
    {
      hide Valid;
      j := i;
      while j < |addr|
        invariant Valid(View()) && i <= j <= |addr| && sent == old(sent) + addr[i..j]
      {
        Sized(View());
        TestsExact(View());
        if nwrite == (nread + PIPESIZE) % UINT { return; }
        PutValid(View(), addr[j]);
        ghost var next := Put(View(), addr[j]);
        data[nwrite % PIPESIZE] := addr[j];
        nwrite := (nwrite + 1) % UINT;
        sent := sent + [addr[j]];
        assert View() == next;
        j := j + 1;
      }
    }

    /** The copying loop of piperead. */
    method Drain(n: nat) returns (out: seq<byte>)
      requires Valid(View())
      modifies this`nread, this`got
      ensures Valid(View()) && got == old(got) + out && |out| <= n
      ensures |out| == n || |got| == |sent|
    {
      hide Valid;
      out := [];
      while |out| < n
        invariant Valid(View()) && |out| <= n && got == old(got) + out
      {
        Sized(View());
        TestsExact(View());
        if nread == nwrite { return; }
        GetValid(View());
        ghost var next := Get(View());
        out := out + [data[nread % PIPESIZE]];
        got := got + [data[nread % PIPESIZE]];
        nread := (nread + 1) % UINT;
        assert View() == next;
      }
    }
  }
}
