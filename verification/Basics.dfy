/** What several parts of the system share: optional results, bytes and pages, and how many elements a set has. */
module Basics {
  datatype Option<T> = None | Some(value: T)

  type byte = x: int | 0 <= x < 256

  const PGSIZE: nat := 4096

  type Page = s: seq<byte> | |s| == 4096 witness seq(4096, _ => 0)

  predicate AtLeast(x: nat, a: nat) { a <= x }

  ghost function Interval(a: nat, b: nat): set<nat> { set x: nat | x < b && AtLeast(x, a) }

  lemma {:induction false} IntervalSize(a: nat, b: nat)
    requires a <= b
    ensures |Interval(a, b)| == b - a
    decreases b - a
  {
    if a < b {
      IntervalSize(a, b - 1);
      assert Interval(a, b) == Interval(a, b - 1) + {b - 1};
    } else {
      assert Interval(a, b) == {};
    }
  }

  lemma {:induction false} SizeMonotone<T>(s: set<T>, t: set<T>)
    requires s <= t
    ensures |s| <= |t|
    decreases |t|
  {
    if s != {} {
      var x :| x in s;
      SizeMonotone(s - {x}, t - {x});
    }
  }

  function Elements<T>(s: seq<T>): set<T> { set x | x in s }

  lemma {:induction false} DistinctSize<T>(s: seq<T>)
    requires forall k, l :: 0 <= k < l < |s| ==> s[k] != s[l]
    ensures |Elements(s)| == |s|
  {
    if s != [] {
      DistinctSize(s[1..]);
      assert s == [s[0]] + s[1..];
      assert s[0] !in s[1..];
      assert Elements(s) == {s[0]} + Elements(s[1..]);
    }
  }

  lemma DivIs(x: nat, b: nat, r: nat)
    requires b > 0
    ensures x / b == r <==> r * b <= x < (r + 1) * b
  {
    assert x == x / b * b + x % b;
    if x / b < r { assert (x / b + 1) * b <= r * b; }
    if x / b > r { assert (r + 1) * b <= x / b * b; }
  }
}
