/**
 The shell's command language: command trees, how they are written, and what the parser makes of a
 string, as functions on the rest of the input.
 */
module ShModel {
  const MAXARGS: nat := 10
  const WHITESPACE: string := " \t\r\n\U{0B}"
  const SYMBOLS: string := "<|>&;()"

  /** O_RDONLY on file descriptor 0, or O_WRONLY|O_CREATE on 1. */
  datatype Mode = Read | Write

  datatype Cmd =
    | Exec(argv: seq<string>)
    | Redir(cmd: Cmd, file: string, mode: Mode)
    | Pipe(left: Cmd, right: Cmd)
    | List(left: Cmd, right: Cmd)
    | Back(cmd: Cmd)

  // ---- tokens ----

  predicate WordChar(c: char) { c !in WHITESPACE && c !in SYMBOLS }

  function Skip(s: string): (r: string)
    ensures |r| <= |s| && (r == "" || r[0] !in WHITESPACE)
  {
    if s != "" && s[0] in WHITESPACE then Skip(s[1..]) else s
  }

  predicate Peek(s: string, toks: string) { Skip(s) != "" && Skip(s)[0] in toks }

  /** The length of the word at the start of s. */
  function WordLength(s: string): (n: nat)
    ensures n <= |s|
  {
    if s != "" && WordChar(s[0]) then 1 + WordLength(s[1..]) else 0
  }

  const END: char := '\0'
  const WORD: char := 'a'
  const APPEND: char := '+'

  datatype Token = Token(kind: char, text: string, rest: string)

  function GetToken(s: string): (t: Token)
    ensures |t.rest| <= |s| && (if Skip(s) == "" then t.kind == END else |t.rest| < |s|)
  {
    var u := Skip(s);
    if u == "" then Token(END, "", "")
    else if u[0] in "|();&<" then Token(u[0], u[..1], Skip(u[1..]))
    else if u[0] == '>' then
      if |u| > 1 && u[1] == '>' then Token(APPEND, u[..2], Skip(u[2..])) else Token('>', u[..1], Skip(u[1..]))
    else
      var n := WordLength(u);
      Token(WORD, u[..n], Skip(u[n..]))
  }

  // ---- the parser ----

  datatype Parsed = Ok(cmd: Cmd, rest: string) | Panic(why: string)

  /** A further argument of the exec node that the redirections are wrapped around. */
  function AddArg(c: Cmd, w: string): Cmd {
    match c
    case Exec(argv) => Exec(argv + [w])
    case Redir(b, f, m) => Redir(AddArg(b, w), f, m)
    case _ => c
  }

  function ModeOf(kind: char): Mode { if kind == '<' then Read else Write }

  function ParseRedirs(c: Cmd, s: string): (p: Parsed)
    ensures p.Ok? ==> |p.rest| <= |s|
    decreases |s|
  {
    if Peek(s, "<>") then
      var tok := GetToken(s);
      var file := GetToken(tok.rest);
      if file.kind != WORD then Panic("missing file for redirection")
      else ParseRedirs(Redir(c, file.text, ModeOf(tok.kind)), file.rest)
    else Ok(c, Skip(s))
  }

  /** The loop of parseexec, when argc arguments have been read. */
  function ParseArgs(c: Cmd, argc: nat, s: string): (p: Parsed)
    ensures p.Ok? ==> |p.rest| <= |s|
    decreases |s|
  {
    if Peek(s, "|)&;") then Ok(c, Skip(s))
    else
      var tok := GetToken(s);
      if tok.kind == END then Ok(c, tok.rest)
      else if tok.kind != WORD then Panic("syntax")
      else if argc + 1 >= MAXARGS then Panic("too many args")
      else
        match ParseRedirs(AddArg(c, tok.text), tok.rest)
        case Panic(why) => Panic(why)
        case Ok(d, rest) => ParseArgs(d, argc + 1, rest)
  }

  function ParseExec(s: string): (p: Parsed)
    ensures p.Ok? ==> |p.rest| <= |s|
    decreases |s|, 1
  {
    if Peek(s, "(") then ParseBlock(s)
    else
      match ParseRedirs(Exec([]), s)
      case Panic(why) => Panic(why)
      case Ok(c, rest) => ParseArgs(c, 0, rest)
  }

  function ParseBlock(s: string): (p: Parsed)
    ensures p.Ok? ==> |p.rest| <= |s|
    decreases |s|, 0
  {
    if !Peek(s, "(") then Panic("parseblock")
    else
      match ParseLine(GetToken(s).rest)
      case Panic(why) => Panic(why)
      case Ok(c, rest) =>
        if !Peek(rest, ")") then Panic("syntax - missing )") else ParseRedirs(c, GetToken(rest).rest)
  }

  function ParsePipe(s: string): (p: Parsed)
    ensures p.Ok? ==> |p.rest| <= |s|
    decreases |s|, 2
  {
    match ParseExec(s)
    case Panic(why) => Panic(why)
    case Ok(c, rest) =>
      if Peek(rest, "|") then
        match ParsePipe(GetToken(rest).rest)
        case Panic(why) => Panic(why)
        case Ok(d, r) => Ok(Pipe(c, d), r)
      else Ok(c, Skip(rest))
  }

  /** The loop of parseline over the ampersands. */
  function Backs(c: Cmd, s: string): (p: (Cmd, string))
    ensures |p.1| <= |s|
    decreases |s|
  {
    if Peek(s, "&") then Backs(Back(c), GetToken(s).rest) else (c, Skip(s))
  }

  function ParseLine(s: string): (p: Parsed)
    ensures p.Ok? ==> |p.rest| <= |s|
    decreases |s|, 3
  {
    match ParsePipe(s)
    case Panic(why) => Panic(why)
    case Ok(c, rest) =>
      var (d, r) := Backs(c, rest);
      if Peek(r, ";") then
        match ParseLine(GetToken(r).rest)
        case Panic(why) => Panic(why)
        case Ok(e, q) => Ok(List(d, e), q)
      else Ok(d, Skip(r))
  }

  function ParseCmd(s: string): Parsed {
    match ParseLine(s)
    case Panic(why) => Panic(why)
    case Ok(c, rest) => if Skip(rest) != "" then Panic("syntax") else Ok(c, "")
  }

  // ---- writing a tree down ----

  const UNIT: nat := 0
  const PIPES: nat := 1
  const BACKS: nat := 2
  const LINE: nat := 3

  /** How loosely a command binds: the innermost rule of the grammar that can produce it without parentheses. */
  function Level(c: Cmd): nat {
    match c
    case Exec(_) => UNIT
    case Redir(_, _, _) => UNIT
    case Pipe(_, _) => PIPES
    case Back(_) => BACKS
    case List(_, _) => LINE
  }

  function Words(argv: seq<string>): string {
    if argv == [] then "" else if |argv| == 1 then argv[0] else argv[0] + " " + Words(argv[1..])
  }

  function Text(c: Cmd): string
    decreases c, 0
  {
    match c
    case Exec(argv) => Words(argv)
    case Redir(b, f, m) => At(b, UNIT) + (if m == Read then "<" else ">") + f
    case Pipe(l, r) => At(l, UNIT) + "|" + At(r, PIPES)
    case Back(b) => At(b, BACKS) + "&"
    case List(l, r) => At(l, BACKS) + ";" + At(r, LINE)
  }

  /** A command where the grammar wants one that binds at least as tightly as level: in parentheses if it does not. */
  function At(c: Cmd, level: nat): string
    decreases c, 1
  {
    if Level(c) <= level then Text(c) else "(" + Text(c) + ")"
  }

  predicate Word(w: string) { w != "" && forall i :: 0 <= i < |w| ==> WordChar(w[i]) }

  /** Fewer than MAXARGS words per exec node, and words that are words. */
  predicate WellFormed(c: Cmd) {
    match c
    case Exec(argv) => |argv| < MAXARGS && forall i :: 0 <= i < |argv| ==> Word(argv[i])
    case Redir(b, f, m) => Word(f) && WellFormed(b)
    case Pipe(l, r) => WellFormed(l) && WellFormed(r)
    case Back(b) => WellFormed(b)
    case List(l, r) => WellFormed(l) && WellFormed(r)
  }

  // ---- reading it back ----

  /** What follows a command does not continue it: the end, or a symbol of toks. */
  predicate Stops(r: string, toks: string) { r == "" || r[0] in toks }

  lemma SkipNothing(s: string)
    requires s == "" || s[0] !in WHITESPACE
    ensures Skip(s) == s
  {
  }

  lemma NotASymbol(c: char)
    requires WordChar(c)
    ensures c !in WHITESPACE && c !in "<>" && c !in "|)&;" && c !in "(" && c !in "|();&<" && c != '>'
  {
    assert '<' in SYMBOLS && '>' in SYMBOLS && '|' in SYMBOLS && ')' in SYMBOLS && '&' in SYMBOLS && ';' in SYMBOLS && '(' in SYMBOLS;
  }

  lemma IsASymbol(c: char)
    requires c in "|)&;<>" || c in "|();&<" || c in SYMBOLS
    ensures c !in WHITESPACE && !WordChar(c)
  {
  }

  /** A word in front of anything that is not part of a word is one token. */
  lemma {:induction false} WordLengthIs(w: string, r: string)
    requires (forall i :: 0 <= i < |w| ==> WordChar(w[i])) && (r == "" || !WordChar(r[0]))
    ensures WordLength(w + r) == |w|
  {
    if w != "" {
      assert (w + r)[1..] == w[1..] + r;
      WordLengthIs(w[1..], r);
    } else {
      assert w + r == r;
    }
  }

  lemma WordToken(w: string, r: string)
    requires Word(w) && (r == "" || !WordChar(r[0]))
    ensures GetToken(w + r) == Token(WORD, w, Skip(r)) && Skip(w + r) == w + r
  {
    SkipNothing(w + r);
    WordLengthIs(w, r);
    assert WordChar((w + r)[0]);
    assert (w + r)[..|w|] == w && (w + r)[|w|..] == r;
  }

  /** A symbol other than > is a token of its own. */
  lemma SymbolToken(c: char, r: string)
    requires c in "|();&<" && (r == "" || r[0] !in WHITESPACE)
    ensures GetToken([c] + r) == Token(c, [c], r) && Skip([c] + r) == [c] + r
  {
    SkipNothing([c] + r);
    SkipNothing(r);
    assert ([c] + r)[..1] == [c] && ([c] + r)[1..] == r;
  }

  /** One redirection in front of the rest. */
  lemma OneRedir(c: Cmd, f: string, m: Mode, r: string)
    requires Word(f) && Stops(r, SYMBOLS)
    ensures ParseRedirs(c, (if m == Read then "<" else ">") + f + r) == ParseRedirs(Redir(c, f, m), r)
  {
    var sym := if m == Read then "<" else ">";
    var s := sym + f + r;
    assert s == sym + (f + r) && s[1..] == f + r && WordChar((f + r)[0]);
    SkipNothing(s);
    SkipNothing(f + r);
    WordToken(f, r);
    SkipNothing(r);
    assert GetToken(s).rest == f + r && GetToken(s).kind == sym[0];
  }

  lemma NoRedirs(c: Cmd, r: string)
    requires r == "" || (r[0] !in WHITESPACE && r[0] !in "<>")
    ensures ParseRedirs(c, r) == Ok(c, r)
  {
    SkipNothing(r);
  }

  /** One argument. */
  lemma ReadWord(c: Cmd, argc: nat, w: string, tail: string)
    requires Word(w) && (tail == "" || !WordChar(tail[0])) && argc + 1 < MAXARGS
    ensures ParseArgs(c, argc, w + tail) ==
            match ParseRedirs(AddArg(c, w), Skip(tail))
            case Panic(why) => Panic(why)
            case Ok(d, rest) => ParseArgs(d, argc + 1, rest)
  {
    hide WordChar, Skip, ParseRedirs;
    WordToken(w, tail);
    NotASymbol((w + tail)[0]);
  }

  /** Between two arguments. */
  lemma NextWord(argv: seq<string>, r: string)
    requires argv != [] && Word(argv[0])
    ensures var next := Words(argv) + r;
            && next != "" && !WordChar(' ') && next[0] !in WHITESPACE && next[0] !in "<>" && next[0] != '('
            && Skip(next) == next && Skip([' '] + next) == next
  {
    var next := Words(argv) + r;
    assert next[0] == argv[0][0];
    NotASymbol(next[0]);
    assert ([' '] + next)[1..] == next;
    SkipNothing(next);
  }

  lemma WordsSplit(argv: seq<string>, r: string)
    requires argv != []
    ensures |argv| == 1 ==> Words(argv) == argv[0]
    ensures |argv| > 1 ==> Words(argv) + r == argv[0] + ([' '] + (Words(argv[1..]) + r))
  {
    if |argv| > 1 { Regroup(argv[0], Words(argv[1..]), r); }
  }

  lemma Regroup(a: string, b: string, r: string)
    ensures a + " " + b + r == a + ([' '] + (b + r))
  {
  }

  /** The arguments of an exec node, and what follows them. */
  lemma {:induction false} ReadWords(done: seq<string>, argv: seq<string>, r: string)
    requires argv != [] && |done| + |argv| < MAXARGS && (forall i :: 0 <= i < |argv| ==> Word(argv[i]))
    requires Stops(r, "|)&;<>")
    ensures ParseArgs(Exec(done), |done|, Words(argv) + r) ==
            match ParseRedirs(Exec(done + argv), r)
            case Panic(why) => Panic(why)
            case Ok(d, rest) => ParseArgs(d, |done| + |argv|, rest)
    decreases argv
  {
    hide ParseArgs, ParseRedirs, WordChar, Skip, Words;
    var w, more := argv[0], argv[1..];
    WordsSplit(argv, r);
    if more == [] {
      if r != "" { IsASymbol(r[0]); }
      SkipNothing(r);
      ReadWord(Exec(done), |done|, w, r);
      assert done + [w] == done + argv;
    } else {
      var next := Words(more) + r;
      NextWord(more, r);
      NoRedirs(Exec(done + [w]), next);
      ReadWord(Exec(done), |done|, w, [' '] + next);
      ReadWords(done + [w], more, r);
      assert done + [w] + more == done + argv;
    }
  }

  // ---- the round trip, from the innermost rule of the grammar outwards ----

  /** A unit that starts with an exec node rather than a block: its further arguments may still come. */
  predicate ExecBase(c: Cmd) { c.Exec? || (c.Redir? && ExecBase(c.cmd)) }

  function ArgCount(c: Cmd): nat {
    match c
    case Exec(argv) => |argv|
    case Redir(b, _, _) => ArgCount(b)
    case _ => 0
  }

  /** What parseexec does after it has read unit c. */
  function Continue(c: Cmd, r: string): Parsed {
    match ParseRedirs(c, r)
    case Panic(why) => Panic(why)
    case Ok(d, rest) => if ExecBase(c) then ParseArgs(d, ArgCount(c), rest) else Ok(d, rest)
  }

  lemma Finished(c: Cmd, r: string)
    requires Stops(r, "|)&;")
    ensures Continue(c, r) == Ok(c, r)
  {
    SkipNothing(r);
    NoRedirs(c, r);
  }

  lemma NotPeeked(s: string, toks: string)
    requires s == "" || (s[0] !in WHITESPACE && s[0] !in toks)
    ensures !Peek(s, toks) && Skip(s) == s
  {
    SkipNothing(s);
  }

  lemma Peeked(s: string, toks: string)
    requires s != "" && s[0] !in WHITESPACE && s[0] in toks
    ensures Peek(s, toks) && Skip(s) == s
  {
    SkipNothing(s);
  }

  lemma ReadExec(argv: seq<string>, r: string)
    requires |argv| < MAXARGS && (forall i :: 0 <= i < |argv| ==> Word(argv[i])) && Stops(r, "|)&;<>")
    ensures ParseExec(Words(argv) + r) == Continue(Exec(argv), r)
  {
    hide ParseArgs, ParseRedirs, WordChar, Skip, Peek;
    var s := Words(argv) + r;
    if argv == [] {
      assert s == r;
      if r != "" { IsASymbol(r[0]); }
      NotPeeked(r, "(");
    } else {
      NextWord(argv, r);
      NotPeeked(s, "(");
      NoRedirs(Exec([]), s);
      ReadWords([], argv, r);
      assert [] + argv == argv;
    }
  }

  /** A parenthesised command, given that its inside is read back. */
  lemma Parenthesised(c: Cmd, r: string)
    requires ParseLine(Text(c) + ([')'] + r)) == Ok(c, [')'] + r) && (r == "" || r[0] !in WHITESPACE)
    requires (Text(c) + ([')'] + r))[0] !in WHITESPACE
    ensures ParseExec(['('] + (Text(c) + ([')'] + r))) == ParseRedirs(c, r)
  {
    var inner := Text(c) + ([')'] + r);
    assert inner != "";
    hide ParseRedirs, WordChar, Skip, Peek, ParseLine, GetToken, Text;
    SymbolToken('(', inner);
    SymbolToken(')', r);
    Peeked(['('] + inner, "(");
    Peeked([')'] + r, ")");
  }

  predicate Dark(s: string) { s == "" || s[0] !in WHITESPACE }

  lemma Grouped(a: string, b: string, c: string, d: string)
    ensures a + b + c + d == a + (b + c + d) && a + b + d == a + (b + d)
  {
  }

  /** No command starts with white space, whatever follows it. */
  lemma {:induction false} StartsDark(c: Cmd, r: string)
    requires WellFormed(c) && Dark(r)
    ensures Dark(Text(c) + r)
    decreases c, 0
  {
    match c {
      case Exec(argv) =>
        if argv == [] { assert Text(c) + r == r; } else { NextWord(argv, r); }
      case Redir(b, f, m) =>
        var sym := if m == Read then "<" else ">";
        Grouped(At(b, UNIT), sym, f, r);
        AtStartsDark(b, UNIT, sym + f + r);
      case Pipe(l, q) =>
        Grouped(At(l, UNIT), "|", At(q, PIPES), r);
        AtStartsDark(l, UNIT, "|" + At(q, PIPES) + r);
      case Back(b) =>
        Grouped(At(b, BACKS), "&", "", r);
        AtStartsDark(b, BACKS, "&" + r);
      case List(l, q) =>
        Grouped(At(l, BACKS), ";", At(q, LINE), r);
        AtStartsDark(l, BACKS, ";" + At(q, LINE) + r);
    }
  }

  lemma {:induction false} AtStartsDark(c: Cmd, level: nat, r: string)
    requires WellFormed(c) && Dark(r)
    ensures Dark(At(c, level) + r)
    decreases c, 1
  {
    if Level(c) <= level { StartsDark(c, r); }
  }

  /** What follows a parenthesised command stays outside. */
  lemma InParens(c: Cmd, r: string)
    ensures "(" + Text(c) + ")" + r == ['('] + (Text(c) + ([')'] + r))
  {
  }

  lemma {:induction false} ReadBlock(c: Cmd, r: string)
    requires WellFormed(c) && Dark(r)
    ensures ParseExec("(" + Text(c) + ")" + r) == ParseRedirs(c, r)
    decreases c, 5
  {
    hide ParseExec, ParseRedirs, ParseLine, Text;
    InParens(c, r);
    StartsDark(c, [')'] + r);
    ReadLine(c, [')'] + r);
    Parenthesised(c, r);
  }

  lemma {:induction false} ReadUnit(c: Cmd, r: string)
    requires WellFormed(c) && Level(c) == UNIT && Stops(r, "|)&;<>")
    ensures ParseExec(Text(c) + r) == Continue(c, r)
    decreases c, 1
  {
    hide ParseExec, ParseRedirs, ParseArgs, WordChar;
    match c {
      case Exec(argv) => ReadExec(argv, r);
      case Redir(b, f, m) =>
        var sym := if m == Read then "<" else ">";
        if r != "" { IsASymbol(r[0]); }
        Grouped(At(b, UNIT), sym, f, r);
        OneRedir(b, f, m, r);
        if Level(b) == UNIT {
          ReadUnit(b, sym + f + r);
        } else {
          ReadBlock(b, sym + f + r);
          assert !ExecBase(c);
          assert ParseExec(Text(c) + r) == ParseRedirs(c, r);
        }
    }
  }

  /** A command where the grammar wants a unit. */
  lemma {:induction false} ReadUnitAt(c: Cmd, r: string)
    requires WellFormed(c) && Stops(r, "|)&;")
    ensures ParseExec(At(c, UNIT) + r) == Ok(c, r)
    decreases c, 6
  {
    if r != "" { IsASymbol(r[0]); }
    hide ParseExec, ParseRedirs, ParseArgs, WordChar, Text;
    if Level(c) == UNIT {
      ReadUnit(c, r);
      Finished(c, r);
    } else {
      ReadBlock(c, r);
      NoRedirs(c, r);
    }
  }

  lemma AfterExec(s: string, c: Cmd, r: string)
    requires ParseExec(s) == Ok(c, r) && Stops(r, ")&;")
    ensures ParsePipe(s) == Ok(c, r)
  {
    hide ParseExec, Peek, Skip;
    if r != "" { IsASymbol(r[0]); }
    NotPeeked(r, "|");
  }

  lemma AfterBar(s: string, l: Cmd, t: string, q: Cmd, r: string)
    requires ParseExec(s) == Ok(l, ['|'] + t) && Dark(t) && ParsePipe(t) == Ok(q, r)
    ensures ParsePipe(s) == Ok(Pipe(l, q), r)
  {
    hide ParseExec, Peek, Skip, GetToken;
    Peeked(['|'] + t, "|");
    SymbolToken('|', t);
  }

  lemma {:induction false} ReadPipes(c: Cmd, r: string)
    requires WellFormed(c) && Level(c) <= PIPES && Stops(r, ")&;")
    ensures ParsePipe(Text(c) + r) == Ok(c, r)
    decreases c, 2
  {
    hide ParseExec, ParsePipe, ParseRedirs, ParseArgs, WordChar, Continue;
    if r != "" { IsASymbol(r[0]); }
    if c.Pipe? {
      var t := At(c.right, PIPES) + r;
      assert Text(c) + r == At(c.left, UNIT) + (['|'] + t);
      AtStartsDark(c.right, PIPES, r);
      ReadUnitAt(c.left, ['|'] + t);
      ReadPipesAt(c.right, r);
      AfterBar(Text(c) + r, c.left, t, c.right, r);
    } else {
      ReadUnit(c, r);
      Finished(c, r);
      AfterExec(Text(c) + r, c, r);
    }
  }

  /** A command where the grammar wants a pipeline. */
  lemma {:induction false} ReadPipesAt(c: Cmd, r: string)
    requires WellFormed(c) && Stops(r, ")&;")
    ensures ParsePipe(At(c, PIPES) + r) == Ok(c, r)
    decreases c, 6
  {
    hide ParseExec, ParsePipe, ParseRedirs, WordChar, Text;
    if r != "" { IsASymbol(r[0]); }
    if Level(c) <= PIPES {
      ReadPipes(c, r);
    } else {
      ReadBlock(c, r);
      NoRedirs(c, r);
      AfterExec("(" + Text(c) + ")" + r, c, r);
    }
  }

  /** parseline up to the semicolon. */
  function Backed(s: string): Parsed {
    match ParsePipe(s)
    case Panic(why) => Panic(why)
    case Ok(c, rest) => var (d, r) := Backs(c, rest); Ok(d, r)
  }

  lemma OneBack(c: Cmd, r: string)
    requires Dark(r)
    ensures Backs(c, ['&'] + r) == Backs(Back(c), r)
  {
    hide Peek, Skip, GetToken;
    Peeked(['&'] + r, "&");
    SymbolToken('&', r);
  }

  lemma NoBacks(c: Cmd, r: string)
    requires Stops(r, ");")
    ensures Backs(c, r) == (c, r)
  {
    if r != "" { IsASymbol(r[0]); }
    NotPeeked(r, "&");
  }

  lemma {:induction false} ReadBacks(c: Cmd, r: string)
    requires WellFormed(c) && Level(c) <= BACKS && Stops(r, ")&;")
    ensures Backed(Text(c) + r) == Ok(Backs(c, r).0, Backs(c, r).1)
    decreases c, 3
  {
    hide ParsePipe, Backs, WordChar;
    if r != "" { IsASymbol(r[0]); }
    if c.Back? {
      assert Text(c) + r == At(c.cmd, BACKS) + (['&'] + r);
      OneBack(c.cmd, r);
      ReadBacksAt(c.cmd, ['&'] + r);
    } else {
      ReadPipes(c, r);
    }
  }

  /** A command where the grammar wants something to put in the background. */
  lemma {:induction false} ReadBacksAt(c: Cmd, r: string)
    requires WellFormed(c) && Stops(r, ")&;")
    ensures Backed(At(c, BACKS) + r) == Ok(Backs(c, r).0, Backs(c, r).1)
    decreases c, 6
  {
    hide ParseExec, ParsePipe, ParseRedirs, Backs, WordChar, Text;
    if r != "" { IsASymbol(r[0]); }
    if Level(c) <= BACKS {
      hide Backed;
      ReadBacks(c, r);
    } else {
      ReadBlock(c, r);
      NoRedirs(c, r);
      AfterExec("(" + Text(c) + ")" + r, c, r);
    }
  }

  lemma LineEnds(s: string, c: Cmd, r: string)
    requires Backed(s) == Ok(c, r) && Stops(r, ")")
    ensures ParseLine(s) == Ok(c, r)
  {
    hide ParsePipe, Backs, Peek, Skip;
    if r != "" { IsASymbol(r[0]); }
    NotPeeked(r, ";");
  }

  lemma LineGoesOn(s: string, c: Cmd, t: string, d: Cmd, r: string)
    requires Backed(s) == Ok(c, [';'] + t) && Dark(t) && ParseLine(t) == Ok(d, r)
    ensures ParseLine(s) == Ok(List(c, d), r)
  {
    hide ParsePipe, Backs, Peek, Skip, GetToken;
    Peeked([';'] + t, ";");
    SymbolToken(';', t);
  }

  lemma {:induction false} ReadLine(c: Cmd, r: string)
    requires WellFormed(c) && Stops(r, ")")
    ensures ParseLine(Text(c) + r) == Ok(c, r)
    decreases c, 4
  {
    hide ParseLine, Backs, Backed, WordChar;
    if r != "" { IsASymbol(r[0]); }
    if c.List? {
      var t := Text(c.right) + r;
      assert Text(c) + r == At(c.left, BACKS) + ([';'] + t);
      StartsDark(c.right, r);
      ReadBacksAt(c.left, [';'] + t);
      NoBacks(c.left, [';'] + t);
      ReadLine(c.right, r);
      LineGoesOn(Text(c) + r, c.left, t, c.right, r);
    } else {
      ReadBacks(c, r);
      NoBacks(c, r);
      LineEnds(Text(c) + r, c, r);
    }
  }

  /** Parsing the written form of a well-formed command, with parentheses only where the grammar needs them, gives the
      same command and leaves nothing over. */
  lemma RoundTrip(c: Cmd)
    requires WellFormed(c)
    ensures ParseCmd(Text(c)) == Ok(c, "")
  {
    ReadLine(c, "");
    assert Text(c) + "" == Text(c);
  }
}
