/**
 The lottery scheduler: one round of scheduler over the process table, and the exact share of
 the raw random values that each process gets.
 */
module Lottery {
  import opened Basics
  import opened Rand

  datatype State = UNUSED | EMBRYO | SLEEPING | RUNNABLE | RUNNING | ZOMBIE

  datatype Proc = Proc(state: State, ticket: nat, tick: nat)

  function Held(p: Proc): nat { if p.state == RUNNABLE then p.ticket else 0 }

  /** The tickets of the RUNNABLE processes among the first k. */
  function Tickets(table: seq<Proc>, k: nat): nat
    requires k <= |table|
  {
    if k == 0 then 0 else Tickets(table, k - 1) + Held(table[k - 1])
  }

  function Total(table: seq<Proc>): nat { Tickets(table, |table|) }

  lemma {:induction false} TicketsGrow(table: seq<Proc>, j: nat, k: nat)
    requires j <= k <= |table|
    ensures Tickets(table, j) <= Tickets(table, k)
    decreases k
  {
    if j < k { TicketsGrow(table, j, k - 1); }
  }

  /** The process that ticket number win falls to: its tickets are the ones numbered from those before it. */
  ghost predicate Wins(table: seq<Proc>, i: nat, win: nat)
    requires i < |table|
  {
    Tickets(table, i) <= win < Tickets(table, i + 1)
  }

  lemma OneWinner(table: seq<Proc>, i: nat, j: nat, win: nat)
    requires i < |table| && j < |table| && Wins(table, i, win) && Wins(table, j, win)
    ensures i == j && table[i].state == RUNNABLE
  {
    if i < j { TicketsGrow(table, i + 1, j); }
    if j < i { TicketsGrow(table, j + 1, i); }
  }

  // ---- the shares ----

  /** The raw values that make random_at_most, asked for the total, return a ticket of process i. */
  ghost function ValuesFor(table: seq<Proc>, i: nat): set<nat>
    requires i < |table|
  {
    set x: nat | x < NUM_RAND && x < Limit(Total(table)) && Wins(table, i, x / BinSize(Total(table)))
  }

  /** The accepted raw values that choose nobody. */
  ghost function ValuesForNobody(table: seq<Proc>): set<nat> {
    set x: nat | x < NUM_RAND && x < Limit(Total(table)) && forall i :: 0 <= i < |table| ==> !Wins(table, i, x / BinSize(Total(table)))
  }

  lemma {:induction false} SomebodyWins(table: seq<Proc>, k: nat, win: nat) returns (i: nat)
    requires k <= |table| && win < Tickets(table, k)
    ensures i < |table| && Wins(table, i, win)
  {
    if win < Tickets(table, k - 1) { i := SomebodyWins(table, k - 1, win); } else { i := k - 1; }
  }

  /** The first raw value of bin r. */
  function First(r: nat, b: nat): nat { r * b }

  lemma FirstGrows(r: nat, q: nat, b: nat)
    requires r <= q
    ensures First(r, b) <= First(q, b) && First(q, b) - First(r, b) == (q - r) * b
  {
  }

  lemma BinRange(x: nat, b: nat, r: nat)
    requires b > 0
    ensures x / b < r <==> x < First(r, b)
  {
    var q := x / b;
    DivIs(x, b, q);
    if q < r { FirstGrows(q + 1, r, b); } else { FirstGrows(r, q, b); }
  }

  /** The accepted raw values whose bin is at least lo and below hi. */
  lemma Between(max: nat, x: nat, lo: nat, hi: nat)
    requires max <= RAND_MAX && lo <= hi <= max + 1
    ensures BinSize(max) > 0 && Limit(max) <= NUM_RAND
    ensures x < Limit(max) && lo <= x / BinSize(max) < hi <==> First(lo, BinSize(max)) <= x < First(hi, BinSize(max))
  {
    assert Limit(max) == First(max + 1, BinSize(max)) && BinSize(max) > 0 by { LimitIsBins(max); }
    hide BinSize, Limit, Defect, First;
    var b := BinSize(max);
    BinRange(x, b, lo);
    BinRange(x, b, hi);
    FirstGrows(hi, max + 1, b);
  }

  /** Of all raw values, exactly its tickets times BinSize choose a given process. */
  lemma ExactShare(table: seq<Proc>, i: nat)
    requires Total(table) <= RAND_MAX && i < |table|
    ensures |ValuesFor(table, i)| ==
            (if table[i].state == RUNNABLE then table[i].ticket else 0) * (0x8000_0000 / (Total(table) + 1))
  {
    var max := Total(table);
    var b, lo, hi := BinSize(max), Tickets(table, i), Tickets(table, i + 1);
    TicketsGrow(table, i + 1, |table|);
    FirstGrows(lo, hi, b);
    assert hi - lo == if table[i].state == RUNNABLE then table[i].ticket else 0;
    hide BinSize, Limit, First;
    forall x: nat ensures x in ValuesFor(table, i) <==> x in Interval(First(lo, b), First(hi, b)) { Between(max, x, lo, hi); }
    assert ValuesFor(table, i) == Interval(First(lo, b), First(hi, b));
    IntervalSize(First(lo, b), First(hi, b));
  }

  /** Exactly BinSize accepted values choose nobody: random_at_most may return the total itself. */
  lemma NobodysShare(table: seq<Proc>)
    requires Total(table) <= RAND_MAX
    ensures |ValuesForNobody(table)| == 0x8000_0000 / (Total(table) + 1) > 0
  {
    var max := Total(table);
    var b := BinSize(max);
    FirstGrows(max, max + 1, b);
    LimitIsBins(max);
    hide BinSize, Limit, First;
    forall x: nat ensures x in ValuesForNobody(table) <==> x in Interval(First(max, b), First(max + 1, b)) {
      Between(max, x, max, max + 1);
      Between(max, x, 0, max + 1);
      NobodyWins(table, x / b);
      FirstZero(b);
    }
    assert ValuesForNobody(table) == Interval(First(max, b), First(max + 1, b));
    IntervalSize(First(max, b), First(max + 1, b));
  }

  lemma FirstZero(b: nat)
    ensures First(0, b) == 0
  {
  }

  /** Nobody wins exactly when the number drawn is the total or more. */
  lemma NobodyWins(table: seq<Proc>, win: nat)
    ensures (forall i :: 0 <= i < |table| ==> !Wins(table, i, win)) <==> win >= Total(table)
  {
    if win < Total(table) {
      var i := SomebodyWins(table, |table|, win);
    } else {
      forall i | 0 <= i < |table| ensures !Wins(table, i, win) { TicketsGrow(table, i + 1, |table|); }
    }
  }

  // ---- the scheduler ----

  /** getRunnableProcTickets */
  method RunnableTickets(table: array<Proc>) returns (total: nat)
    ensures total == Total(table[..])
  {
    total := 0;
    for p := 0 to table.Length
      invariant total == Tickets(table[..], p)
    {
      if table[p].state == RUNNABLE { total := total + table[p].ticket; }
    }
  }

  /** One round of scheduler, up to the switch: the process chosen, or -1. The raw value that decided it is one of
      exactly those that ExactShare and NobodysShare count. */
  method Round(table: array<Proc>, rng: Generator, ghost n: nat) returns (chosen: int, ghost x: nat)
    requires rng.Valid() && table as object != rng.mt && Total(table[..]) <= RAND_MAX
    requires Output(rng.seed, rng.calls + n) < Limit(Total(table[..]))
    modifies table, rng, rng.mt
    ensures rng.Valid() && rng.seed == old(rng.seed) && rng.calls > old(rng.calls) && x == Output(rng.seed, rng.calls - 1)
    ensures -1 <= chosen < table.Length
    ensures forall i :: 0 <= i < table.Length ==> (chosen == i <==> x in ValuesFor(old(table[..]), i))
    ensures chosen == -1 <==> x in ValuesForNobody(old(table[..]))
    ensures chosen == -1 ==> table[..] == old(table[..])
    ensures chosen != -1 ==>
              old(table[chosen].state) == RUNNABLE &&
              table[..] == old(table[..])[chosen := old(table[chosen]).(state := RUNNING)]
  {
    ghost var before := table[..];
    var total := RunnableTickets(table);
    var win := rng.RandomAtMost(total, n);
    x := Output(rng.seed, rng.calls - 1);
    hide Output, BinSize, Limit;
    var cur := 0;
    for p := 0 to table.Length
      invariant table[..] == before && cur == Tickets(before, p) <= win
    {
      if table[p].state != RUNNABLE { continue; }
      cur := cur + table[p].ticket;
      if cur > win {
        assert Wins(before, p, win);
        forall i | 0 <= i < |before| && Wins(before, i, win) ensures i == p { OneWinner(before, i, p, win); }
        table[p] := table[p].(state := RUNNING);
        return p, x;
      }
    }
    NobodyWins(before, win);
    return -1, x;
  }
}
