/**
 The buffer cache of bio.c: NBUF buffers on one circular doubly linked list in
 order of last release, in front of a disk that is written one block at a time.
 A buffer is its index; index 0 is bcache.head.
 */
module BufferCache {
  import opened Basics
  import opened Blocks

  /** A block of a device. */
  datatype Addr = Addr(dev: nat, no: nat)

  type Disk = map<Addr, Block>

  /** A struct buf without its links. */
  datatype Buf = Buf(at: Addr, valid: bool, dirty: bool, locked: bool, refcnt: nat, data: Block) {
    /** What bget may recycle. */
    predicate Idle() {
      refcnt == 0 && !dirty
    }
  }

  const FREE := Buf(Addr(0, 0), false, false, false, 0, Zeros())

  // ---- the list ----

  /**
   ring is head, the buffers from the most to the least recently released, head again;
   place[b] is the position of b in it.
   */
  ghost predicate Linked(next: seq<nat>, prev: seq<nat>, ring: seq<nat>, place: seq<nat>)
  {
    && |next| == |prev| == |place| == |ring| - 1 >= 1
    && ring[0] == 0 == ring[|ring| - 1]
    && (forall b :: 0 <= b < |place| ==> place[b] < |place| && ring[place[b]] == b)
    && (forall i :: 0 <= i < |place| ==> ring[i] < |place|)
    && (forall i {:trigger place[ring[i]]} :: 0 <= i < |place| ==> place[ring[i]] == i)
    && (forall b {:trigger next[b]} :: 0 <= b < |next| ==> next[b] == ring[place[b] + 1])
    && (forall b {:trigger prev[b]} :: 0 < b < |prev| ==> 0 < place[b] && prev[b] == ring[place[b] - 1])
    && prev[0] == ring[|ring| - 2]
  }

  /** The cycle after the buffer at position k has moved to the front. */
  function ToFront(ring: seq<nat>, k: nat): (r: seq<nat>)
    requires 0 < k < |ring|
    ensures |r| == |ring| && r[0] == ring[0] && r[1] == ring[k]
    ensures forall i :: 2 <= i <= k ==> r[i] == ring[i - 1]
    ensures forall i :: k < i < |r| ==> r[i] == ring[i]
  {
    ring[..1] + [ring[k]] + ring[1..k] + ring[k + 1..]
  }

  lemma AddFirst(next: seq<nat>, prev: seq<nat>, ring: seq<nat>, place: seq<nat>)
    requires Linked(next, prev, ring, place)
    ensures next[0] < |next|
    ensures Linked((next + [next[0]])[0 := |next|], (prev + [0])[next[0] := |next|],
                   [0, |next|] + ring[1..], AddedPlace(place))
  {
    var r := [0, |next|] + ring[1..];
    var n := (next + [next[0]])[0 := |next|];
    var q := AddedPlace(place);
    assert forall i :: 2 <= i < |r| ==> r[i] == ring[i - 1];
    assert place[0] == 0;
  }

  /** The next links after b has been unlinked and put behind head. */
  function SplicedNext(n: seq<nat>, p: seq<nat>, b: nat): seq<nat>
    requires 0 < b < |n| == |p| && p[b] < |n|
  {
    var out: seq<nat> := n[p[b] := n[b]];
    out[b := out[0]][0 := b]
  }

  function SplicedPrev(n: seq<nat>, p: seq<nat>, b: nat): seq<nat>
    requires 0 < b < |n| == |p| && p[b] < |n| && n[b] < |n| && n[0] < |n|
  {
    var first := n[p[b] := n[b]][0];
    var out: seq<nat> := p[n[b] := p[b]];
    out[b := 0][first := b]
  }

  lemma MovedInverse(ring: seq<nat>, place: seq<nat>, b: nat)
    requires |place| == |ring| - 1 && ring[0] == 0 && 0 < b < |place|
    requires forall b :: 0 <= b < |place| ==> place[b] < |place| && ring[place[b]] == b
    requires forall i :: 0 <= i < |place| ==> ring[i] < |place|
    requires forall i {:trigger place[ring[i]]} :: 0 <= i < |place| ==> place[ring[i]] == i
    ensures 0 < place[b] && |ToFront(ring, place[b])| == |ring|
    ensures var r, q := ToFront(ring, place[b]), MovedPlace(place, b);
            && (forall c :: 0 <= c < |q| ==> q[c] < |q| && r[q[c]] == c)
            && (forall i :: 0 <= i < |q| ==> r[i] < |q|)
            && (forall i {:trigger q[r[i]]} :: 0 <= i < |q| ==> q[r[i]] == i)
  {
    assert place[0] == 0;
    var r, q := ToFront(ring, place[b]), MovedPlace(place, b);
    hide ToFront;
    forall i | 0 <= i < |q| ensures r[i] < |q| && q[r[i]] == i {
      if i > place[b] { assert place[ring[i]] == i; }
      else if i >= 2 { assert place[ring[i - 1]] == i - 1; }
    }
    forall c | 0 <= c < |q| ensures q[c] < |q| && r[q[c]] == c {
      assert ring[place[c]] == c;
    }
  }

  lemma SplicedEnds(n: seq<nat>, p: seq<nat>, ring: seq<nat>, place: seq<nat>, b: nat)
    requires Linked(n, p, ring, place) && 0 < b < |n|
    ensures place[0] == 0 < place[b] && n[b] < |n| && p[b] < |n| && n[0] < |n|
    ensures |SplicedNext(n, p, b)| == |SplicedPrev(n, p, b)| == |n|
  {
    assert ring[place[b]] == b && n[b] == ring[place[b] + 1] && p[b] == ring[place[b] - 1] && n[0] == ring[1];
  }

  lemma Spliced(n: seq<nat>, p: seq<nat>, ring: seq<nat>, place: seq<nat>, b: nat)
    requires Linked(n, p, ring, place) && 0 < b < |n|
    ensures place[b] > 0 && n[b] < |n| && p[b] < |n| && n[0] < |n|
    ensures Linked(SplicedNext(n, p, b), SplicedPrev(n, p, b), ToFront(ring, place[b]), MovedPlace(place, b))
  {
    SplicedEnds(n, p, ring, place, b);
    MovedInverse(ring, place, b);
    AllAfter(n, p, ring, place, b);
    var n', p', r, q := SplicedNext(n, p, b), SplicedPrev(n, p, b), ToFront(ring, place[b]), MovedPlace(place, b);
    assert r[0] == 0 == r[|r| - 1] && |q| == |place|;
    hide *;
    LinkedIf(n', p', r, q);
  }

  lemma LinkedIf(n: seq<nat>, p: seq<nat>, ring: seq<nat>, place: seq<nat>)
    requires |n| == |p| == |place| == |ring| - 1 >= 1 && ring[0] == 0 == ring[|ring| - 1]
    requires forall b :: 0 <= b < |place| ==> place[b] < |place| && ring[place[b]] == b
    requires forall i :: 0 <= i < |place| ==> ring[i] < |place|
    requires forall i {:trigger place[ring[i]]} :: 0 <= i < |place| ==> place[ring[i]] == i
    requires forall b {:trigger n[b]} :: 0 <= b < |n| ==> n[b] == ring[place[b] + 1]
    requires forall b {:trigger p[b]} :: 0 < b < |p| ==> 0 < place[b] && p[b] == ring[place[b] - 1]
    requires p[0] == ring[|ring| - 2]
    ensures Linked(n, p, ring, place)
  {
  }

  lemma AllAfter(n: seq<nat>, p: seq<nat>, ring: seq<nat>, place: seq<nat>, b: nat)
    requires Linked(n, p, ring, place) && 0 < b < |n|
    requires place[b] > 0 && n[b] < |n| && p[b] < |n| && n[0] < |n|
    requires |ToFront(ring, place[b])| == |ring|
    requires forall c :: 0 <= c < |place| ==> MovedPlace(place, b)[c] < |place|
    ensures |SplicedNext(n, p, b)| == |SplicedPrev(n, p, b)| == |n|
    ensures var r, q := ToFront(ring, place[b]), MovedPlace(place, b);
            && (forall c {:trigger SplicedNext(n, p, b)[c]} :: 0 <= c < |n| ==> SplicedNext(n, p, b)[c] == r[q[c] + 1])
            && (forall c {:trigger SplicedPrev(n, p, b)[c]} :: 0 < c < |n| ==>
                  0 < q[c] && SplicedPrev(n, p, b)[c] == r[q[c] - 1])
            && SplicedPrev(n, p, b)[0] == r[|ring| - 2]
  {
    var r, q := ToFront(ring, place[b]), MovedPlace(place, b);
    hide *;
    forall c: nat | c < |n| ensures SplicedNext(n, p, b)[c] == r[q[c] + 1] {
      NextAfter(n, p, ring, place, b, c);
    }
    forall c: nat | 0 < c < |n| ensures 0 < q[c] && SplicedPrev(n, p, b)[c] == r[q[c] - 1] {
      PrevAfter(n, p, ring, place, b, c);
    }
    PrevAfter(n, p, ring, place, b, 0);
  }

  lemma NextAfter(n: seq<nat>, p: seq<nat>, ring: seq<nat>, place: seq<nat>, b: nat, c: nat)
    requires Linked(n, p, ring, place) && 0 < b < |n| && c < |n|
    requires place[b] > 0 && n[b] < |n| && p[b] < |n| && n[0] < |n|
    ensures SplicedNext(n, p, b)[c] == ToFront(ring, place[b])[MovedPlace(place, b)[c] + 1]
  {
    var k, m := place[b], place[c];
    assert n[c] == ring[m + 1] && ring[m] == c;
    assert c == p[b] <==> m == k - 1;
  }

  lemma PrevAfter(n: seq<nat>, p: seq<nat>, ring: seq<nat>, place: seq<nat>, b: nat, c: nat)
    requires Linked(n, p, ring, place) && 0 < b < |n| && c < |n|
    requires place[b] > 0 && n[b] < |n| && p[b] < |n| && n[0] < |n|
    ensures if c == 0 then SplicedPrev(n, p, b)[0] == ToFront(ring, place[b])[|ring| - 2]
            else 0 < MovedPlace(place, b)[c] && SplicedPrev(n, p, b)[c] == ToFront(ring, place[b])[MovedPlace(place, b)[c] - 1]
  {
    hide ToFront;
    var k, m := place[b], place[c];
    assert ring[m] == c && place[0] == 0;
    assert n[0] == ring[1] && n[b] == ring[k + 1] && p[b] == ring[k - 1];
    if c == 0 {
      assert p[0] == ring[|ring| - 2];
      assert n[b] == 0 <==> k + 1 == |ring| - 1 by { if k + 1 < |ring| - 1 { assert place[ring[k + 1]] == k + 1; } }
    } else {
      assert p[c] == ring[m - 1];
      assert c == n[b] <==> m == k + 1;
    }
  }

  function AddedPlace(place: seq<nat>): (q: seq<nat>)
    requires |place| >= 1
  {
    seq(|place|, b requires 0 <= b < |place| => if b == 0 then 0 else place[b] + 1) + [1]
  }

  function MovedPlace(place: seq<nat>, b: nat): (q: seq<nat>)
    requires b < |place|
  {
    seq(|place|, c requires 0 <= c < |place| =>
      if c == 0 then 0 else if c == b then 1 else if place[c] < place[b] then place[c] + 1 else place[c])
  }

  // ---- the contents ----

  predicate Shown(buf: seq<Buf>, a: Addr) {
    exists i :: 0 < i < |buf| && buf[i].valid && buf[i].at == a
  }

  predicate Cached(buf: seq<Buf>, a: Addr) {
    exists i :: 0 < i < |buf| && buf[i].at == a
  }

  /** Nobody holds the buffer of a, so bread of a does not have to wait. */
  predicate Unheld(buf: seq<Buf>, a: Addr) {
    forall i :: 0 < i < |buf| && buf[i].at == a ==> !buf[i].locked
  }

  ghost predicate BufOk(b: Buf, disk: Disk, view: Disk) {
    && (b.at.dev != 0 ==> b.at in disk && b.at in view)
    && (b.valid ==> b.at.dev != 0 && view[b.at] == b.data)
    && (b.valid && !b.dirty && !b.locked ==> disk[b.at] == b.data)
    && (b.dirty ==> b.valid)
    && (b.locked ==> b.refcnt > 0 && b.at.dev != 0)
  }

  /** view is what bread returns; only a valid buffer can make it differ from the disk. */
  ghost predicate Coherent(buf: seq<Buf>, disk: Disk, view: Disk) {
    && view.Keys == disk.Keys
    && (forall i :: 0 < i < |buf| ==> BufOk(buf[i], disk, view))
    && (forall i, j :: 0 < i < j < |buf| && buf[i].at == buf[j].at ==> buf[i].at.dev == 0)
    && (forall a :: a in disk && view[a] != disk[a] ==> Shown(buf, a))
  }

  class Cache {
    const buf: array<Buf>
    const next: array<nat>
    const prev: array<nat>
    var disk: Disk

    ghost var ring: seq<nat>
    ghost var place: seq<nat>
    // the buffers that brelse has moved to the front, in order
    ghost var moves: seq<nat>
    // the logical contents: what bread returns
    ghost var view: Disk
    // the disk after every bwrite so far: the states a crash can leave
    ghost var writes: seq<Disk>

    ghost predicate Valid()
      reads this, buf, next, prev
    {
      && next != prev
      && buf.Length == next.Length == prev.Length
      && Linked(next[..], prev[..], ring, place)
      && Coherent(buf[..], disk, view)
      && ByRecency(ring, moves)
    }

    /** binit */
    constructor (nbuf: nat, disk: Disk)
      ensures Valid() && fresh(buf) && fresh(next) && fresh(prev)
      ensures buf.Length == nbuf + 1 && this.disk == disk == view && writes == [] && moves == []
      ensures forall i :: 0 < i < buf.Length ==> buf[i] == FREE
    {
      buf := new Buf[nbuf + 1](_ => FREE);
      next := new nat[nbuf + 1](_ => 0);
      prev := new nat[nbuf + 1](_ => 0);
      this.disk, view, writes, moves := disk, disk, [], [];
      new;
      ring, place := Link(next, prev);
      NeverReleased(ring);
    }

    /** The loop of binit: every buffer in turn goes behind the head. */
    static method Link(next: array<nat>, prev: array<nat>) returns (ghost r: seq<nat>, ghost q: seq<nat>)
      requires next != prev && next.Length == prev.Length >= 1
      modifies next, prev
      ensures Linked(next[..], prev[..], r, q)
    {
      next[0], prev[0] := 0, 0;
      r, q := [0, 0], [0];
      for b := 1 to next.Length
        invariant Linked(next[..b], prev[..b], r, q)
      {
        ghost var n, p := next[..b], prev[..b];
        AddFirst(n, p, r, q);
        var first := next[0];
        next[b] := first;
        prev[b] := 0;
        prev[first] := b;
        next[0] := b;
        assert next[..b + 1] == (n + [n[0]])[0 := b];
        assert prev[..b + 1] == (p + [0])[n[0] := b];
        r, q := [0, b] + r[1..], AddedPlace(q);
      }
      assert next[..next.Length] == next[..] && prev[..prev.Length] == prev[..];
    }

    /** The first loop of bget: the buffer of block a, or the head. */
    method FindCached(a: Addr) returns (b: nat)
      requires Valid()
      ensures if b == 0 then !Cached(buf[..], a) else b < buf.Length && buf[b].at == a
    {
      b := next[0];
      ghost var i := 1;
      assert place[0] == 0;
      while b != 0
        invariant 0 < i < |ring| && b == ring[i]
        invariant forall j :: 0 < j < i ==> buf[ring[j]].at != a
        decreases |ring| - i
      {
        assert place[b] == i;
        if buf[b].at == a { return; }
        b := next[b];
        i := i + 1;
      }
      forall c | 0 < c < buf.Length ensures buf[c].at != a { assert buf[ring[place[c]]].at != a; }
    }

    /** The second loop of bget: the least recently released idle clean buffer, or the head. */
    method FindIdle() returns (b: nat)
      requires Valid()
      ensures if b == 0 then forall c :: 0 < c < buf.Length ==> !buf[c].Idle()
              else b < buf.Length && buf[b].Idle() && Oldest(buf[..], moves, b)
    {
      b := prev[0];
      ghost var i := |ring| - 2;
      assert place[0] == 0;
      while b != 0
        invariant 0 <= i < |ring| - 1 && b == ring[i]
        invariant forall j :: i < j < |ring| - 1 ==> ring[j] < buf.Length && !buf[ring[j]].Idle()
        decreases i
      {
        assert place[b] == i;
        if buf[b].refcnt == 0 && !buf[b].dirty {
          RecyclesOldest(buf[..], ring, place, moves, b);
          return;
        }
        b := prev[b];
        i := i - 1;
      }
      assert i == 0 by { assert place[ring[i]] == i; }
      forall c | 0 < c < buf.Length ensures !buf[c].Idle() { assert !buf[ring[place[c]]].Idle(); }
    }

    /** bget */
    method Get(dev: nat, no: nat) returns (r: Option<nat>)
      requires Valid() && dev != 0 && Addr(dev, no) in disk && Unheld(buf[..], Addr(dev, no))
      modifies buf
      ensures Valid()
      ensures r.None? <==> Panics(old(buf[..]), Addr(dev, no))
      ensures r.Some? ==> Found(old(buf[..]), moves, Addr(dev, no), r.value)
      ensures r.Some? ==> buf[..] == old(buf[..])[r.value := Taken(old(buf[..]), Addr(dev, no), r.value)]
      ensures r.Some? ==>
                // it has the block and is locked, with one reference more, or as the only one if it is recycled
                && buf[r.value].at == Addr(dev, no) && buf[r.value].locked
                && buf[r.value].refcnt == (if Cached(old(buf[..]), Addr(dev, no)) then old(buf[..])[r.value].refcnt + 1 else 1)
      ensures r.None? ==> buf[..] == old(buf[..])
    {
      var a := Addr(dev, no);
      var b := FindCached(a);
      if b != 0 {
        assert Cached(buf[..], a);
        Take(buf[..], disk, view, a, b);
        buf[b] := buf[b].(refcnt := buf[b].refcnt + 1, locked := true);
        return Some(b);
      }
      b := FindIdle();
      if b != 0 {
        Take(buf[..], disk, view, a, b);
        buf[b] := buf[b].(at := a, valid := false, dirty := false, refcnt := 1, locked := true);
        return Some(b);
      }
      return None;
    }

    /** bread */
    method Read(dev: nat, no: nat) returns (r: Option<nat>)
      requires Valid() && dev != 0 && Addr(dev, no) in disk && Unheld(buf[..], Addr(dev, no))
      modifies buf
      ensures Valid()
      ensures r.None? <==> Panics(old(buf[..]), Addr(dev, no))
      ensures r.None? ==> buf[..] == old(buf[..])
      ensures r.Some? ==> Found(old(buf[..]), moves, Addr(dev, no), r.value)
      ensures r.Some? ==> buf[..] == old(buf[..])[r.value :=
                            Taken(old(buf[..]), Addr(dev, no), r.value).(valid := true, data := view[Addr(dev, no)])]
    {
      r := Get(dev, no);
      if r.Some? {
        var b := r.value;
        assert BufOk(buf[b], disk, view);
        if !buf[b].valid {
          // iderw: B_DIRTY is clear, so it reads
          NotShown(buf[..], disk, view, b);
          Update(buf[..], disk, view, b, buf[b].(data := disk[buf[b].at], valid := true), disk, view);
          buf[b] := buf[b].(data := disk[buf[b].at], valid := true);
        }
      }
    }

    /** The holder of b changes its contents. */
    method Modify(b: nat, data: Block)
      requires Valid() && 0 < b < buf.Length && buf[b].locked && buf[b].valid
      modifies this`view, buf
      ensures Valid()
      ensures view == old(view)[buf[b].at := data]
      ensures buf[..] == old(buf[..])[b := old(buf[b]).(data := data)]
    {
      assert BufOk(buf[b], disk, view);
      Update(buf[..], disk, view, b, buf[b].(data := data), disk, view[buf[b].at := data]);
      view := view[buf[b].at := data];
      buf[b] := buf[b].(data := data);
    }

    /** bwrite: sets B_DIRTY, and iderw writes the block and clears it again. */
    method Write(b: nat)
      requires Valid() && 0 < b < buf.Length && buf[b].locked && buf[b].valid
      modifies this`disk, this`writes, buf
      ensures Valid()
      ensures disk == old(disk)[buf[b].at := buf[b].data] && writes == old(writes) + [disk]
      ensures buf[..] == old(buf[..])[b := old(buf[b]).(dirty := false)]
    {
      assert BufOk(buf[b], disk, view);
      Update(buf[..], disk, view, b, buf[b].(dirty := false), disk[buf[b].at := buf[b].data], view);
      buf[b] := buf[b].(dirty := true);
      disk := disk[buf[b].at := buf[b].data];
      buf[b] := buf[b].(dirty := false);
      writes := writes + [disk];
      assert buf[..] == old(buf[..])[b := old(buf[b]).(dirty := false)];
    }

    /** b->flags |= B_DIRTY, by log_write: pins the buffer. */
    method Pin(b: nat)
      requires Valid() && 0 < b < buf.Length && buf[b].locked && buf[b].valid
      modifies buf
      ensures Valid()
      ensures buf[..] == old(buf[..])[b := old(buf[b]).(dirty := true)]
    {
      assert BufOk(buf[b], disk, view);
      Update(buf[..], disk, view, b, buf[b].(dirty := true), disk, view);
      buf[b] := buf[b].(dirty := true);
    }

    /** brelse.  The caller has written what it changed, or pinned it. */
    method Release(b: nat)
      requires Valid() && 0 < b < buf.Length && buf[b].locked
      requires buf[b].valid && !buf[b].dirty ==> buf[b].data == disk[buf[b].at]
      modifies this`ring, this`place, this`moves, buf, next, prev
      ensures Valid()
      ensures buf[..] == old(buf[..])[b := old(buf[b]).(locked := false, refcnt := old(buf[b]).refcnt - 1)]
      // moved to the front exactly when nobody else is waiting for it
      ensures old(0 < place[b] < |ring| && ring[place[b]] == b)
      ensures ring == if buf[b].refcnt == 0 then old(ToFront(ring, place[b])) else old(ring)
      ensures moves == if buf[b].refcnt == 0 then old(moves) + [b] else old(moves)
    {
      PlaceOf(next[..], prev[..], ring, place, b);
      ReleaseOk(buf[..], disk, view, b);
      hide Linked, ByRecency, ToFront, Coherent;
      buf[b] := buf[b].(locked := false, refcnt := buf[b].refcnt - 1);
      if buf[b].refcnt == 0 {
        MoveToFront(b);
      }
    }

    method MoveToFront(b: nat)
      requires Linked(next[..], prev[..], ring, place) && 0 < b < next.Length && next != prev && ByRecency(ring, moves)
      modifies this`ring, this`place, this`moves, next, prev
      ensures Linked(next[..], prev[..], ring, place) && ByRecency(ring, moves) && moves == old(moves) + [b]
      ensures old(0 < place[b] < |ring|) && ring == old(ToFront(ring, place[b]))
    {
      hide ByRecency;
      ghost var n, p := next[..], prev[..];
      Spliced(n, p, ring, place, b);
      ReleaseKeepsOrder(n, p, ring, place, moves, b);
      prev[next[b]] := prev[b];
      next[prev[b]] := next[b];
      next[b] := next[0];
      prev[b] := 0;
      prev[next[0]] := b;
      next[0] := b;
      assert next[..] == SplicedNext(n, p, b);
      assert prev[..] == SplicedPrev(n, p, b);
      ring, place, moves := ToFront(ring, place[b]), MovedPlace(place, b), moves + [b];
    }
  }

  /** "bget: no buffers" */
  predicate Panics(buf: seq<Buf>, a: Addr) {
    !Cached(buf, a) && forall b :: 0 < b < |buf| ==> !buf[b].Idle()
  }

  /** bget picks the cached buffer of a, or else an idle clean one that was released no later than any other. */
  ghost predicate Found(buf: seq<Buf>, moves: seq<nat>, a: Addr, b: nat) {
    0 < b < |buf| && if Cached(buf, a) then buf[b].at == a else buf[b].Idle() && Oldest(buf, moves, b)
  }

  ghost predicate Oldest(buf: seq<Buf>, moves: seq<nat>, b: nat) {
    forall c :: 0 < c < |buf| && buf[c].Idle() ==> LastRelease(moves, b) <= LastRelease(moves, c)
  }

  ghost predicate LastIdle(buf: seq<Buf>, ring: seq<nat>, i: nat)
    requires |ring| == |buf| + 1
  {
    0 < i < |buf| && forall j :: i < j < |buf| ==> ring[j] < |buf| && !buf[ring[j]].Idle()
  }

  /** The buffer as bget hands it over. */
  function Taken(buf: seq<Buf>, a: Addr, b: nat): Buf
    requires b < |buf|
  {
    if Cached(buf, a) then buf[b].(refcnt := buf[b].refcnt + 1, locked := true)
    else buf[b].(at := a, valid := false, dirty := false, refcnt := 1, locked := true)
  }

  lemma Take(buf: seq<Buf>, disk: Disk, view: Disk, a: Addr, b: nat)
    requires Coherent(buf, disk, view) && a in disk && a.dev != 0 && 0 < b < |buf|
    requires if Cached(buf, a) then buf[b].at == a && !buf[b].locked else buf[b].Idle()
    ensures Coherent(buf[b := Taken(buf, a, b)], disk, view)
  {
    assert BufOk(buf[b], disk, view);
    if view[a] != disk[a] { assert Shown(buf, a); }
    Update(buf, disk, view, b, Taken(buf, a, b), disk, view);
  }

  lemma ReleaseOk(buf: seq<Buf>, disk: Disk, view: Disk, b: nat)
    requires Coherent(buf, disk, view) && 0 < b < |buf| && buf[b].locked
    requires buf[b].at in disk && (buf[b].valid && !buf[b].dirty ==> buf[b].data == disk[buf[b].at])
    ensures buf[b].refcnt > 0 && Coherent(buf[b := buf[b].(locked := false, refcnt := buf[b].refcnt - 1)], disk, view)
  {
    assert BufOk(buf[b], disk, view);
    Update(buf, disk, view, b, buf[b].(locked := false, refcnt := buf[b].refcnt - 1), disk, view);
  }

  /** One buffer, and the block it holds, change together. */
  lemma Update(buf: seq<Buf>, disk: Disk, view: Disk, b: nat, c: Buf, disk': Disk, view': Disk)
    requires Coherent(buf, disk, view) && 0 < b < |buf| && c.at.dev != 0
    requires c.at == buf[b].at || (buf[b].Idle() && !Cached(buf, c.at))
    requires disk'.Keys == disk.Keys == view'.Keys && c.at in disk
    requires forall x :: x in disk && x != c.at ==> disk'[x] == disk[x] && view'[x] == view[x]
    requires BufOk(c, disk', view') && (view'[c.at] != disk'[c.at] ==> c.valid)
    ensures Coherent(buf[b := c], disk', view')
  {
    var buf' := buf[b := c];
    assert BufOk(buf[b], disk, view);
    forall x | x in disk' && view'[x] != disk'[x] ensures Shown(buf', x) {
      if x == c.at {
        assert buf'[b].valid && buf'[b].at == x;
      } else {
        var i :| 0 < i < |buf| && buf[i].valid && buf[i].at == x;
        assert buf'[i].valid && buf'[i].at == x;
      }
    }
    forall i | 0 < i < |buf'| ensures BufOk(buf'[i], disk', view') {
      if i != b {
        assert BufOk(buf[i], disk, view);
        assert buf[i].at != c.at;
      }
    }
  }

  /** A valid buffer shows the logical block; a missing or invalid one leaves it on the disk. */
  lemma NotShown(buf: seq<Buf>, disk: Disk, view: Disk, b: nat)
    requires Coherent(buf, disk, view) && 0 < b < |buf| && buf[b].at.dev != 0 && !buf[b].valid
    ensures buf[b].at in disk && disk[buf[b].at] == view[buf[b].at]
  {
    assert BufOk(buf[b], disk, view);
    assert !Shown(buf, buf[b].at);
  }

  // ---- the order of the list is the order of release ----

  /** When buffer b was last moved to the front, counting the moves rs; -1 if never. */
  function LastRelease(rs: seq<nat>, b: nat): (r: int)
    ensures -1 <= r < |rs|
  {
    if rs == [] then -1 else if rs[|rs| - 1] == b then |rs| - 1 else LastRelease(rs[..|rs| - 1], b)
  }

  /** A buffer nearer to the head was released later, or neither has ever been released. */
  ghost predicate ByRecency(ring: seq<nat>, rs: seq<nat>) {
    forall i, j :: 0 < i < j < |ring| - 1 ==>
      LastRelease(rs, ring[i]) > LastRelease(rs, ring[j]) || LastRelease(rs, ring[i]) == LastRelease(rs, ring[j]) == -1
  }

  lemma NeverReleased(ring: seq<nat>)
    ensures ByRecency(ring, [])
  {
  }

  /** The move of brelse keeps the list in order of last release. */
  lemma ReleaseKeepsOrder(n: seq<nat>, p: seq<nat>, ring: seq<nat>, place: seq<nat>, rs: seq<nat>, b: nat)
    requires Linked(n, p, ring, place) && 0 < b < |n| && ByRecency(ring, rs)
    ensures 0 < place[b] < |place| && ByRecency(ToFront(ring, place[b]), rs + [b])
  {
    PlaceOf(n, p, ring, place, b);
    assert place[0] == 0;
    OrderMoved(ring, place, rs, b);
  }

  lemma PlaceOf(n: seq<nat>, p: seq<nat>, ring: seq<nat>, place: seq<nat>, b: nat)
    requires Linked(n, p, ring, place) && 0 < b < |n|
    ensures |ring| == |place| + 1 && 0 < place[b] < |place| && ring[place[b]] == b
    ensures forall i :: 0 <= i < |place| && i != place[b] ==> ring[i] != b
  {
    forall i | 0 <= i < |place| && i != place[b] ensures ring[i] != b { assert place[ring[i]] == i; }
    assert ring[place[0]] == 0 && place[ring[0]] == 0;
  }

  lemma OrderMoved(ring: seq<nat>, place: seq<nat>, rs: seq<nat>, b: nat)
    requires |place| == |ring| - 1 && 0 < b < |place| && 0 < place[b] < |place| && ring[place[b]] == b && ByRecency(ring, rs)
    requires forall i :: 0 <= i < |place| && i != place[b] ==> ring[i] != b
    ensures ByRecency(ToFront(ring, place[b]), rs + [b])
  {
    var k := place[b];
    var r, after := ToFront(ring, k), rs + [b];
    assert after[..|after| - 1] == rs;
    forall i, j | 0 < i < j < |r| - 1
      ensures LastRelease(after, r[i]) > LastRelease(after, r[j]) || LastRelease(after, r[i]) == LastRelease(after, r[j]) == -1
    {
      var oi, oj := if i == 1 then k else if i <= k then i - 1 else i, if j <= k then j - 1 else j;
      assert r[i] == ring[oi] && r[j] == ring[oj];
    }
  }

  /** The last idle clean buffer of the list was released no later than any other. */
  lemma RecyclesOldest(buf: seq<Buf>, ring: seq<nat>, place: seq<nat>, rs: seq<nat>, b: nat)
    requires |ring| == |buf| + 1 == |place| + 1 && ByRecency(ring, rs) && 0 < b < |buf|
    requires forall c :: 0 < c < |buf| ==> 0 < place[c] < |buf| && ring[place[c]] == c
    requires LastIdle(buf, ring, place[b])
    ensures Oldest(buf, rs, b)
  {
    forall c | 0 < c < |buf| && buf[c].Idle() ensures LastRelease(rs, b) <= LastRelease(rs, c) {
      assert ring[place[c]] == c && place[c] <= place[b];
    }
  }
}
