/**
 The shell's recursive-descent parser with its cursor: each routine starts at a position of the
 buffer and says where it stopped, and agrees with the grammar of ShModel.
 */
module Sh {
  import opened ShModel

  /** What a parsing routine does: it returns a tree and leaves the cursor somewhere, or panics. */
  datatype Outcome = Done(cmd: Cmd, to: nat) | Panicked(why: string)

  ghost predicate Agrees(o: Outcome, buf: string, at: nat, p: Parsed) {
    match o
    case Panicked(why) => p == Panic(why)
    case Done(c, to) => at <= to <= |buf| && p == Ok(c, buf[to..])
  }

  /** The loops over white space. */
  method SkipSpace(buf: string, at: nat) returns (s: nat)
    requires at <= |buf|
    ensures at <= s <= |buf| && buf[s..] == Skip(buf[at..])
  {
    s := at;
    while s < |buf| && buf[s] in WHITESPACE
      invariant at <= s <= |buf| && Skip(buf[s..]) == Skip(buf[at..])
    {
      assert buf[s..][1..] == buf[s + 1..];
      s := s + 1;
    }
    SkipNothing(buf[s..]);
  }

  /** The loop over the characters of a word. */
  method ScanWord(buf: string, at: nat) returns (s: nat)
    requires at <= |buf|
    ensures at <= s <= |buf| && WordLength(buf[at..]) == s - at
  {
    s := at;
    while s < |buf| && buf[s] !in WHITESPACE && buf[s] !in SYMBOLS
      invariant at <= s <= |buf| && WordLength(buf[at..]) == s - at + WordLength(buf[s..])
    {
      assert buf[s..][1..] == buf[s + 1..];
      s := s + 1;
    }
  }

  /** gettoken: the kind of token, where its text starts and ends, and the position after it. */
  method Gettoken(buf: string, at: nat) returns (ret: char, q: nat, eq: nat, to: nat)
    requires at <= |buf|
    ensures at <= q <= eq <= to <= |buf| && GetToken(buf[at..]) == Token(ret, buf[q..eq], buf[to..])
  {
    hide Skip, WordLength;
    var s := SkipSpace(buf, at);
    q := s;
    if s == |buf| {
      ret := END;
    } else {
      ret := buf[s];
      if buf[s] in "|();&<" {
        s := s + 1;
      } else if buf[s] == '>' {
        s := s + 1;
        if s < |buf| && buf[s] == '>' {
          ret := APPEND;
          s := s + 1;
        }
      } else {
        ret := WORD;
        s := ScanWord(buf, s);
      }
    }
    eq := s;
    to := SkipSpace(buf, s);
    ghost var u := buf[q..];
    assert u[..eq - q] == buf[q..eq] && u[eq - q..] == buf[eq..];
    if |u| > 0 { assert u[0] == buf[q]; }
    if |u| > 1 { assert u[1] == buf[q + 1]; }
    if u == "" { SkipNothing(buf[s..]); }
  }

  /** peek: the cursor moves over white space, and the answer is whether one of toks is next. */
  method PeekAt(buf: string, at: nat, toks: string) returns (r: bool, to: nat)
    requires at <= |buf|
    ensures at <= to <= |buf| && buf[to..] == Skip(buf[at..]) && (r <==> Peek(buf[at..], toks))
  {
    to := SkipSpace(buf, at);
    assert to < |buf| ==> buf[to..][0] == buf[to];
    r := to < |buf| && buf[to] in toks;
  }

  lemma SkipTwice(s: string, toks: string)
    ensures Skip(Skip(s)) == Skip(s) && GetToken(Skip(s)) == GetToken(s) && (Peek(Skip(s), toks) <==> Peek(s, toks))
  {
    SkipNothing(Skip(s));
  }

  /** parseredirs */
  method Parseredirs(c: Cmd, buf: string, at: nat) returns (o: Outcome)
    requires at <= |buf|
    ensures Agrees(o, buf, at, ParseRedirs(c, buf[at..]))
  {
    var cmd, s := c, at;
    while true
      invariant at <= s <= |buf| && ParseRedirs(c, buf[at..]) == ParseRedirs(cmd, buf[s..])
      decreases |buf| - s
    {
      var more, s1 := PeekAt(buf, s, "<>");
      SkipTwice(buf[s..], "<>");
      if !more { return Done(cmd, s1); }
      var tok, _, _, s2 := Gettoken(buf, s1);
      var kind, q, eq, s3 := Gettoken(buf, s2);
      if kind != WORD { return Panicked("missing file for redirection"); }
      cmd := if tok == '<' then Redir(cmd, buf[q..eq], Read) else Redir(cmd, buf[q..eq], Write);
      s := s3;
    }
  }

  /** parseexec; the exec node is the one inside all redirections of the tree built so far. */
  method Parseexec(buf: string, at: nat) returns (o: Outcome)
    requires at <= |buf|
    ensures Agrees(o, buf, at, ParseExec(buf[at..]))
    decreases |buf| - at, 1
  {
    hide ParseBlock, ParseRedirs, Skip, Peek, GetToken;
    var block, s := PeekAt(buf, at, "(");
    SkipTwice(buf[at..], "(");
    if block {
      o := Parseblock(buf, at);
      return;
    }
    o := Parseredirs(Exec([]), buf, at);
    if o.Panicked? { return; }
    var argc := 0;
    while true
      invariant o.Done? && at <= o.to <= |buf| && ParseExec(buf[at..]) == ParseArgs(o.cmd, argc, buf[o.to..])
      decreases |buf| - o.to
    {
      var stop, s1 := PeekAt(buf, o.to, "|)&;");
      SkipTwice(buf[o.to..], "|)&;");
      if stop { return Done(o.cmd, s1); }
      var tok, q, eq, s2 := Gettoken(buf, s1);
      if tok == END { return Done(o.cmd, s2); }
      if tok != WORD { return Panicked("syntax"); }
      argc := argc + 1;
      if argc >= MAXARGS { return Panicked("too many args"); }
      o := Parseredirs(AddArg(o.cmd, buf[q..eq]), buf, s2);
      if o.Panicked? { return; }
    }
  }

  /** parseblock */
  method Parseblock(buf: string, at: nat) returns (o: Outcome)
    requires at <= |buf|
    ensures Agrees(o, buf, at, ParseBlock(buf[at..]))
    decreases |buf| - at, 0
  {
    var open, s := PeekAt(buf, at, "(");
    SkipTwice(buf[at..], "(");
    if !open { return Panicked("parseblock"); }
    var _, _, _, s1 := Gettoken(buf, s);
    o := Parseline(buf, s1);
    if o.Panicked? { return; }
    var close, s2 := PeekAt(buf, o.to, ")");
    SkipTwice(buf[o.to..], ")");
    if !close { return Panicked("syntax - missing )"); }
    var _, _, _, s3 := Gettoken(buf, s2);
    o := Parseredirs(o.cmd, buf, s3);
  }

  /** parsepipe */
  method Parsepipe(buf: string, at: nat) returns (o: Outcome)
    requires at <= |buf|
    ensures Agrees(o, buf, at, ParsePipe(buf[at..]))
    decreases |buf| - at, 2
  {
    o := Parseexec(buf, at);
    if o.Panicked? { return; }
    var bar, s := PeekAt(buf, o.to, "|");
    SkipTwice(buf[o.to..], "|");
    if !bar { return Done(o.cmd, s); }
    var _, _, _, s1 := Gettoken(buf, s);
    var left := o.cmd;
    o := Parsepipe(buf, s1);
    if o.Done? { o := Done(Pipe(left, o.cmd), o.to); }
  }

  /** parseline */
  method Parseline(buf: string, at: nat) returns (o: Outcome)
    requires at <= |buf|
    ensures Agrees(o, buf, at, ParseLine(buf[at..]))
    decreases |buf| - at, 3
  {
    o := Parsepipe(buf, at);
    if o.Panicked? { return; }
    ghost var first, rest := o.cmd, buf[o.to..];
    while true
      invariant o.Done? && at <= o.to <= |buf| && Backs(first, rest) == Backs(o.cmd, buf[o.to..])
      decreases |buf| - o.to
    {
      var more, s := PeekAt(buf, o.to, "&");
      SkipTwice(buf[o.to..], "&");
      if !more {
        o := Done(o.cmd, s);
        break;
      }
      var _, _, _, s1 := Gettoken(buf, s);
      o := Done(Back(o.cmd), s1);
    }
    var list, s := PeekAt(buf, o.to, ";");
    SkipTwice(buf[o.to..], ";");
    if !list { return Done(o.cmd, s); }
    var _, _, _, s1 := Gettoken(buf, s);
    var left := o.cmd;
    o := Parseline(buf, s1);
    if o.Done? { o := Done(List(left, o.cmd), o.to); }
  }

  /** parsecmd: on every string the parser terminates, with the tree that the grammar gives or a panic. */
  method Parsecmd(buf: string) returns (o: Outcome)
    ensures match ParseCmd(buf) case Ok(c, _) => o == Done(c, |buf|) case Panic(why) => o == Panicked(why)
  {
    assert buf[0..] == buf;
    o := Parseline(buf, 0);
    if o.Panicked? { return; }
    var _, s := PeekAt(buf, o.to, "");
    if s != |buf| { return Panicked("syntax"); }
    o := Done(o.cmd, s);
  }
}
