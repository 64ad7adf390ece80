/**
 The loop of grep over its input buffer: which lines it writes, for every way in which read may
 cut the input into pieces.
 */
module GrepInput {
  import opened Grep

  const BUFSIZE: nat := 1024

  // ---- lines ----

  /** The position of the first newline, or the length if there is none. */
  function Newline(s: string): (i: nat)
    ensures i <= |s| && '\n' !in s[..i] && (i < |s| ==> s[i] == '\n') && (i == |s| <==> '\n' !in s)
  {
    if s == "" || s[0] == '\n' then 0
    else
      var i := 1 + Newline(s[1..]);
      assert s[..i] == [s[0]] + s[1..][..i - 1] && s == [s[0]] + s[1..];
      i
  }

  /** The complete lines of s, without their newlines. */
  function Lines(s: string): seq<string>
    decreases |s|
  {
    var i := Newline(s);
    if i == |s| then [] else [s[..i]] + Lines(s[i + 1..])
  }

  /** What follows the last newline. */
  function Rest(s: string): (r: string)
    ensures |r| <= |s| && '\n' !in r
    decreases |s|
  {
    var i := Newline(s);
    if i == |s| then s else Rest(s[i + 1..])
  }

  /** s up to and with its last newline. */
  function Whole(s: string): string { s[..|s| - |Rest(s)|] }

  /** The lines that match, as they are written. */
  ghost function Selected(re: string, lines: seq<string>): seq<string> {
    if lines == [] then []
    else (if Matches(re, lines[0]) then [lines[0] + ['\n']] else []) + Selected(re, lines[1..])
  }

  lemma {:induction false} NewlineAt(a: string, t: string)
    requires '\n' !in a
    ensures Newline(a + ['\n'] + t) == |a|
  {
    var x := a + ['\n'] + t;
    if a == "" {
      assert x[0] == '\n';
    } else {
      assert x[0] == a[0] && x[1..] == a[1..] + ['\n'] + t;
      assert '\n' !in a[1..];
      NewlineAt(a[1..], t);
    }
  }

  lemma FirstLine(a: string, t: string)
    requires '\n' !in a
    ensures Lines(a + ['\n'] + t) == [a] + Lines(t) && Rest(a + ['\n'] + t) == Rest(t)
    ensures Whole(a + ['\n'] + t) == a + ['\n'] + Whole(t)
  {
    var x := a + ['\n'] + t;
    NewlineAt(a, t);
    assert x[..|a|] == a && x[|a| + 1..] == t;
    assert Rest(x) == Rest(t);
  }

  lemma CutAt(s: string, i: nat)
    requires i < |s|
    ensures s == s[..i] + [s[i]] + s[i + 1..]
  {
  }

  lemma Grouped(a: string, b: string, c: string)
    ensures a + b + c == a + (b + c)
  {
  }

  /** A string is its first line, the newline and the rest. */
  lemma AtNewline(s: string)
    requires '\n' in s
    ensures var i := Newline(s); i < |s| && s == s[..i] + ['\n'] + s[i + 1..] && '\n' !in s[..i]
  {
    hide Newline;
    CutAt(s, Newline(s));
  }

  /** Putting one more line in front of a string, and of its lines. */
  lemma LineInFront(a: string, w: string, r: string, t: string, k: seq<string>, m: seq<string>)
    requires '\n' !in a && Lines(w + t) == k + m
    ensures a + ['\n'] + w + r == a + ['\n'] + (w + r)
    ensures Lines(a + ['\n'] + w + t) == [a] + k + m
  {
    hide Lines, Rest, Whole, Newline;
    Grouped(a + ['\n'], w, r);
    Grouped(a + ['\n'], w, t);
    FirstLine(a, w + t);
    GroupedLines([a], k, m);
  }

  lemma GroupedLines(a: seq<string>, b: seq<string>, c: seq<string>)
    ensures a + b + c == a + (b + c)
  {
  }

  lemma {:induction false} WholeLines(s: string, t: string)
    ensures Whole(s) + Rest(s) == s && Lines(Whole(s) + t) == Lines(s) + Lines(t)
    decreases |s|
  {
    hide Newline, Lines, Rest, Whole;
    if '\n' in s {
      AtNewline(s);
      var a, u := s[..Newline(s)], s[Newline(s) + 1..];
      WholeLines(u, t);
      FirstLine(a, u);
      LineInFront(a, Whole(u), Rest(u), t, Lines(u), Lines(t));
    } else {
      NoLine(s);
      Empty(s);
      Empty(t);
      GroupedLines([], [], Lines(t));
    }
  }

  lemma Empty(s: string)
    ensures "" + s == s
  {
  }

  lemma NoLine(s: string)
    requires '\n' !in s
    ensures Lines(s) == [] && Rest(s) == s && Whole(s) == ""
  {
  }

  lemma {:induction false} SelectedJoin(re: string, a: seq<string>, b: seq<string>)
    ensures Selected(re, a + b) == Selected(re, a) + Selected(re, b)
  {
    if a == [] {
      assert a + b == b;
    } else {
      assert (a + b)[1..] == a[1..] + b;
      SelectedJoin(re, a[1..], b);
    }
  }

  // ---- what is kept ----

  /** The input that grep looks at, when left is in the buffer and read returns the chunks: a buffer without a newline
      is thrown away. */
  function Kept(left: string, chunks: seq<string>): string
    decreases |chunks|
  {
    if chunks == [] then left
    else
      var b := left + chunks[0];
      if '\n' !in b then Kept("", chunks[1..]) else Whole(b) + Kept(Rest(b), chunks[1..])
  }

  function Joined(chunks: seq<string>): string { if chunks == [] then "" else chunks[0] + Joined(chunks[1..]) }

  predicate EachHasNewline(chunks: seq<string>) { forall i :: 0 <= i < |chunks| ==> '\n' in chunks[i] }

  lemma Newlines(chunks: seq<string>)
    requires chunks != []
    ensures EachHasNewline(chunks) <==> '\n' in chunks[0] && EachHasNewline(chunks[1..])
  {
    assert chunks == [chunks[0]] + chunks[1..];
  }

  lemma {:induction false} KeptLength(left: string, chunks: seq<string>)
    requires '\n' !in left && forall i :: 0 <= i < |chunks| ==> chunks[i] != ""
    ensures |Kept(left, chunks)| <= |left| + |Joined(chunks)|
    ensures |Kept(left, chunks)| == |left| + |Joined(chunks)| <==> EachHasNewline(chunks)
    ensures EachHasNewline(chunks) ==> Kept(left, chunks) == left + Joined(chunks)
    decreases |chunks|
  {
    if chunks != [] {
      var b, more := left + chunks[0], chunks[1..];
      Newlines(chunks);
      hide EachHasNewline, Newline, Rest, Whole, Lines;
      if '\n' in chunks[0] {
        WholeLines(b, "");
        KeptLength(Rest(b), more);
        assert Whole(b) + (Rest(b) + Joined(more)) == Whole(b) + Rest(b) + Joined(more);
        assert left + (chunks[0] + Joined(more)) == b + Joined(more);
      } else {
        KeptLength("", more);
      }
    }
  }

  /** No input is lost exactly when every read returns a newline. */
  lemma NothingLostExactly(chunks: seq<string>)
    requires forall i :: 0 <= i < |chunks| ==> chunks[i] != ""
    ensures Kept("", chunks) == Joined(chunks) <==> EachHasNewline(chunks)
  {
    hide Kept, Joined, EachHasNewline;
    KeptLength("", chunks);
    Empty(Joined(chunks));
  }

  /** A line that two reads deliver in halves loses its first half, whatever it is. */
  lemma LostLine(a: string, b: string)
    requires '\n' !in a && '\n' !in b
    ensures Lines(Kept("", [a, b + ['\n']])) == [b] && Lines(Joined([a, b + ['\n']])) == [a + b]
  {
    hide Newline, Lines, Rest, Whole;
    var c := b + ['\n'];
    assert [a, c][1..] == [c] && [c][1..] == [];
    Empty(a);
    Empty(c);
    OneLine(b);
    assert c[|b|] == '\n';
    assert Kept("", [c]) == c + Kept("", []) == c;
    assert Joined([c]) == c + Joined([]) == c;
    assert Joined([a, c]) == a + c == a + b + ['\n'];
    OneLine(a + b);
  }

  lemma OneLine(a: string)
    requires '\n' !in a
    ensures var c := a + ['\n']; Lines(c) == [a] && Whole(c) == c && Rest(c) == ""
  {
    hide Newline, Lines, Rest, Whole;
    assert a + ['\n'] + "" == a + ['\n'];
    FirstLine(a, "");
    NoLine("");
  }

  // ---- the loop ----

  /** What is in the buffer after a read. */
  function Left(b: string): string { if '\n' in b then Rest(b) else "" }

  /** Every read returns at least one character and at most what the buffer has room for. */
  predicate ReadsFit(left: string, chunks: seq<string>)
    decreases |chunks|
  {
    chunks == [] ||
    (0 < |chunks[0]| <= BUFSIZE - |left| - 1 && '\0' !in chunks[0] && ReadsFit(Left(left + chunks[0]), chunks[1..]))
  }

  /** The lines written so far, and those still to come from the rest of the buffer and the input. */
  ghost predicate Writes(re: string, all: string, out: seq<string>, left: string, chunks: seq<string>) {
    Selected(re, Lines(all)) == out + Selected(re, Lines(Kept(left, chunks)))
  }

  lemma AfterScan(re: string, all: string, out: seq<string>, left: string, chunks: seq<string>)
    requires chunks != [] && Writes(re, all, out, left, chunks)
    ensures var b := left + chunks[0];
            Writes(re, all, out + Selected(re, Lines(b)), Left(b), chunks[1..])
  {
    hide Lines, Selected, Rest, Whole, Newline, Matches;
    var b, more := left + chunks[0], chunks[1..];
    var next := Kept(Left(b), more);
    if '\n' in b {
      WholeLines(b, next);
      SelectedJoin(re, Lines(b), Lines(next));
    } else {
      NoLine(b);
      NothingSelected(re);
    }
    assert out + (Selected(re, Lines(b)) + Selected(re, Lines(next))) == out + Selected(re, Lines(b)) + Selected(re, Lines(next));
  }

  lemma NothingSelected(re: string)
    ensures Selected(re, []) == []
  {
  }

  lemma WritesStart(re: string, chunks: seq<string>)
    ensures Writes(re, Kept("", chunks), [], "", chunks)
  {
    assert [] + Selected(re, Lines(Kept("", chunks))) == Selected(re, Lines(Kept("", chunks)));
  }

  lemma WritesDone(re: string, all: string, out: seq<string>, left: string)
    requires Writes(re, all, out, left, []) && '\n' !in left
    ensures out == Selected(re, Lines(all))
  {
    NoLine(left);
    NothingSelected(re);
    assert out + [] == out;
  }

  /** grep writes exactly the matching lines of the input that is kept. */
  method Run(re: CString, chunks: seq<string>) returns (out: seq<string>)
    requires ReadsFit("", chunks)
    ensures out == Selected(re, Lines(Kept("", chunks)))
  {
    hide Writes, Lines, Selected, Kept, Rest, Newline;
    ghost var all := Kept("", chunks);
    WritesStart(re, chunks);
    out := [];
    var left, k := "", 0;
    assert chunks[0..] == chunks;
    while k < |chunks|
      invariant 0 <= k <= |chunks| && ReadsFit(left, chunks[k..]) && '\n' !in left && '\0' !in left
      invariant Writes(re, all, out, left, chunks[k..])
    {
      assert chunks[k..][0] == chunks[k] && chunks[k..][1..] == chunks[k + 1..];
      AfterScan(re, all, out, left, chunks[k..]);
      var buf := left + chunks[k];
      var found;
      found, left := Scan(re, buf);
      out := out + found;
      k := k + 1;
    }
    WritesDone(re, all, out, left);
  }

  /** One line of the buffer, from p on. */
  lemma ScanStep(re: string, buf: string, p: nat)
    requires p <= |buf| && '\n' in buf[p..]
    ensures var q := p + Newline(buf[p..]);
            && q < |buf| && buf[q] == '\n' && Rest(buf[q + 1..]) == Rest(buf[p..])
            && Selected(re, Lines(buf[p..])) ==
               (if Matches(re, buf[p..q]) then [buf[p..q] + ['\n']] else []) + Selected(re, Lines(buf[q + 1..]))
  {
    AtNewline(buf[p..]);
    var i := Newline(buf[p..]);
    assert buf[p..][..i] == buf[p..p + i] && buf[p..][i + 1..] == buf[p + i + 1..];
    hide Matches, Newline;
    FirstLine(buf[p..p + i], buf[p + i + 1..]);
    assert ([buf[p..p + i]] + Lines(buf[p + i + 1..]))[1..] == Lines(buf[p + i + 1..]);
  }

  /** The inner loop, over one full buffer, and what it leaves there. */
  method Scan(re: CString, buf: string) returns (out: seq<string>, left: string)
    requires '\0' !in buf
    ensures out == Selected(re, Lines(buf)) && left == Left(buf) && '\0' !in left
  {
    hide Lines, Selected, Rest, Newline, Matches;
    out := [];
    var p := 0;
    assert buf[0..] == buf && [] + Selected(re, Lines(buf)) == Selected(re, Lines(buf));
    while '\n' in buf[p..]
      invariant 0 <= p <= |buf| && Selected(re, Lines(buf)) == out + Selected(re, Lines(buf[p..]))
      invariant Rest(buf[p..]) == Rest(buf) && (p == 0 || '\n' in buf)
      decreases |buf| - p
    {
      ScanStep(re, buf, p);
      var q := p + Newline(buf[p..]);  // strchr
      var r := Match(re, buf[p..q]);
      ghost var more := Selected(re, Lines(buf[q + 1..]));
      if r {
        assert out + ([buf[p..q] + ['\n']] + more) == out + [buf[p..q] + ['\n']] + more;
        out := out + [buf[p..q] + ['\n']];
      } else {
        assert out + ([] + more) == out + more;
      }
      p := q + 1;
    }
    NoLine(buf[p..]);
    NothingSelected(re);
    assert out + [] == out;
    left := if p == 0 then "" else buf[p..];
  }
}
