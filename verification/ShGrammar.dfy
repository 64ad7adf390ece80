/**
 The grammar of the shell's command language on tokens, without the parser: which sequences of tokens
 spell which command.  The parser accepts exactly these, and gives that command.
 */
module ShGrammar {
  import opened ShModel
  import opened ShSpacing

  // ---- the grammar ----

  function Sign(kind: char): Lexeme { Lexeme(kind, "") }

  /** What a simple command is made of, in any order. */
  datatype Item = Arg(word: string) | Into(mode: Mode, file: string)

  function SpelledOne(i: Item): seq<Lexeme> {
    match i
    case Arg(w) => [Lexeme(WORD, w)]
    case Into(m, f) => [Sign(if m == Read then '<' else '>'), Lexeme(WORD, f)]
  }

  function Spelled(items: seq<Item>): seq<Lexeme> {
    if items == [] then [] else SpelledOne(items[0]) + Spelled(items[1..])
  }

  function Args(items: seq<Item>): seq<string> {
    if items == [] then [] else (if items[0].Arg? then [items[0].word] else []) + Args(items[1..])
  }

  /** The redirections among the items around a command, the first one innermost. */
  function Wrapped(c: Cmd, items: seq<Item>): Cmd
    decreases |items|
  {
    if items == [] then c
    else Wrapped(if items[0].Into? then Redir(c, items[0].file, items[0].mode) else c, items[1..])
  }

  predicate OnlyRedirs(items: seq<Item>) { forall i :: 0 <= i < |items| ==> items[i].Into? }

  /** Fewer than ten words and any redirections, in any order: one exec node inside all redirections. */
  ghost predicate Simple(c: Cmd, ls: seq<Lexeme>) {
    exists items :: ls == Spelled(items) && |Args(items)| < 10 && c == Wrapped(Exec(Args(items)), items)
  }

  ghost predicate Bracketed(c: Cmd, ls: seq<Lexeme>, k: nat, d: Cmd, items: seq<Item>)
    decreases |ls|, 0
  {
    && 1 <= k < |ls| && ls[0] == Sign('(') && ls[k] == Sign(')') && Line(d, ls[1..k])
    && OnlyRedirs(items) && ls[k + 1..] == Spelled(items) && c == Wrapped(d, items)
  }

  ghost predicate Unit(c: Cmd, ls: seq<Lexeme>)
    decreases |ls|, 1
  {
    Simple(c, ls) || exists k: nat, d, items :: Bracketed(c, ls, k, d, items)
  }

  ghost predicate Piped(c: Cmd, ls: seq<Lexeme>, k: nat)
    decreases |ls|, 2
  {
    k < |ls| && ls[k] == Sign('|') && c.Pipe? && Unit(c.left, ls[..k]) && Pipes(c.right, ls[k + 1..])
  }

  ghost predicate Pipes(c: Cmd, ls: seq<Lexeme>)
    decreases |ls|, 3
  {
    Unit(c, ls) || exists k: nat :: Piped(c, ls, k)
  }

  ghost predicate Backed(c: Cmd, ls: seq<Lexeme>)
    decreases |ls|, 4
  {
    Pipes(c, ls) || (ls != [] && ls[|ls| - 1] == Sign('&') && c.Back? && Backed(c.cmd, ls[..|ls| - 1]))
  }

  ghost predicate Listed(c: Cmd, ls: seq<Lexeme>, k: nat)
    decreases |ls|, 5
  {
    k < |ls| && ls[k] == Sign(';') && c.List? && Backed(c.left, ls[..k]) && Line(c.right, ls[k + 1..])
  }

  ghost predicate Line(c: Cmd, ls: seq<Lexeme>)
    decreases |ls|, 6
  {
    Backed(c, ls) || exists k: nat :: Listed(c, ls, k)
  }

  // ---- the first token of a string ----

  /** What the parser learns from peek and gettoken. */
  lemma Head(s: string)
    ensures Lex(s) == [] <==> Skip(s) == ""
    ensures Lex(Skip(s)) == Lex(s)
    ensures Skip(s) == "" ==> GetToken(s).kind == END
    ensures Lex(s) != [] ==>
              var t, x := GetToken(s), Lex(s)[0];
              && Lex(s)[1..] == Lex(t.rest) && |t.rest| < |s|
              && (t.kind == WORD <==> x.kind == WORD) && (x.kind == WORD ==> t.text == x.text) && (x.kind != WORD ==> x.text == "")
              && (t.kind == '<' <==> x.kind == '<') && t.kind != END
              && x.kind in "|();&<>a"
  {
    LexSkip(s);
    TokenShorter(s);
    if Skip(s) != "" { assert Lex(s) == [Seen(GetToken(s))] + Lex(GetToken(s).rest); }
    assert END !in "|();&<" && WORD !in "|();&<";
  }

  /** What follows is the end or a token that stops the rule. */
  predicate Ends(t: seq<Lexeme>, toks: string) { t == [] || t[0].kind in toks }

  lemma PeekIs(s: string, toks: string)
    requires toks == "<>" || toks == "|)&;" || toks == "(" || toks == "|" || toks == "&" || toks == ";" || toks == ")"
    ensures Peek(s, toks) <==> Lex(s) != [] && Lex(s)[0].kind in toks
  {
    Symbols();
    PeekSees(s, toks);
  }

  // ---- simple commands ----

  /** parseexec from the first redirections on, when argc arguments have been read. */
  function Go(c: Cmd, argc: nat, s: string): Parsed {
    match ParseRedirs(c, s)
    case Panic(why) => Panic(why)
    case Ok(d, rest) => ParseArgs(d, argc, rest)
  }

  function Added(c: Cmd, i: Item): Cmd {
    match i
    case Arg(w) => AddArg(c, w)
    case Into(m, f) => Redir(c, f, m)
  }

  function AddedAll(c: Cmd, items: seq<Item>): Cmd
    decreases |items|
  {
    if items == [] then c else AddedAll(Added(c, items[0]), items[1..])
  }

  /** One redirection. */
  lemma RedirStep(c: Cmd, s: string) returns (f: string, r: string)
    ensures Ends(Lex(s), "|();&a") ==> ParseRedirs(c, s) == Ok(c, Skip(s))
    ensures !Ends(Lex(s), "|();&a") && (|Lex(s)| == 1 || Lex(s)[1].kind != WORD) ==> ParseRedirs(c, s).Panic?
    ensures !Ends(Lex(s), "|();&a") && |Lex(s)| > 1 && Lex(s)[1].kind == WORD ==>
              && (Lex(s)[0] == Sign('<') || Lex(s)[0] == Sign('>'))
              && Lex(s)[1] == Lexeme(WORD, f) && Lex(r) == Lex(s)[2..] && |r| < |s|
              && ParseRedirs(c, s) == ParseRedirs(Redir(c, f, if Lex(s)[0].kind == '<' then Read else Write), r)
  {
    hide Lex, Peek, GetToken, Skip;
    Head(s);
    PeekIs(s, "<>");
    var x := GetToken(s);
    Head(x.rest);
    f, r := GetToken(x.rest).text, GetToken(x.rest).rest;
  }

  lemma GoRedir(c: Cmd, argc: nat, s: string) returns (f: string, r: string)
    requires !Ends(Lex(s), "|();&a")
    ensures |Lex(s)| == 1 || Lex(s)[1].kind != WORD ==> Go(c, argc, s).Panic?
    ensures |Lex(s)| > 1 && Lex(s)[1].kind == WORD ==>
              && (Lex(s)[0] == Sign('<') || Lex(s)[0] == Sign('>'))
              && Lex(s)[1] == Lexeme(WORD, f) && Lex(r) == Lex(s)[2..] && |r| < |s|
              && Go(c, argc, s) == Go(Redir(c, f, if Lex(s)[0].kind == '<' then Read else Write), argc, r)
  {
    hide Lex, Peek, GetToken, Skip, ParseRedirs, ParseArgs;
    f, r := RedirStep(c, s);
  }

  /** The loop at a token that is no redirection. */
  lemma GoArg(c: Cmd, argc: nat, s: string) returns (r: string)
    requires Ends(Lex(s), "|();&a")
    ensures Ends(Lex(s), "|)&;") ==> Go(c, argc, s) == Ok(c, r) && Lex(r) == Lex(s)
    ensures !Ends(Lex(s), "|)&;") && Lex(s)[0].kind != WORD ==> Go(c, argc, s) == Panic("syntax")
    ensures !Ends(Lex(s), "|)&;") && Lex(s)[0].kind == WORD ==>
              && Lex(s)[0].text == GetToken(Skip(s)).text && Lex(r) == Lex(s)[1..] && |r| < |s|
              && Go(c, argc, s) == if argc + 1 >= MAXARGS then Panic("too many args") else Go(AddArg(c, Lex(s)[0].text), argc + 1, r)
  {
    hide Lex, Peek, GetToken, Skip, ParseRedirs, AddArg;
    var f, q := RedirStep(c, s);
    var u := Skip(s);
    Head(s);
    Head(u);
    SkipShorter(s);
    PeekIs(u, "|)&;");
    if Peek(u, "|)&;") {
      Head(Skip(u));
      r := Skip(u);
      Head(u);
    } else if Lex(s) == [] {
      r := GetToken(u).rest;
      RestOfNothing(u);
    } else {
      r := GetToken(u).rest;
    }
  }

  lemma SkipShorter(s: string)
    ensures |Skip(s)| <= |s| && Skip(Skip(s)) == Skip(s)
  {
    SkipNothing(Skip(s));
  }

  lemma RestOfNothing(s: string)
    requires Skip(s) == ""
    ensures Lex(GetToken(s).rest) == []
  {
  }

  // ---- what the items of a simple command give ----

  lemma {:induction false} SpelledJoin(a: seq<Item>, b: seq<Item>)
    ensures Spelled(a + b) == Spelled(a) + Spelled(b) && Args(a + b) == Args(a) + Args(b)
    decreases |a|
  {
    if a == [] {
      assert a + b == b;
    } else {
      hide SpelledOne;
      assert (a + b)[1..] == a[1..] + b && (a + b)[0] == a[0];
      SpelledJoin(a[1..], b);
      Joined(SpelledOne(a[0]), Spelled(a[1..]), Spelled(b));
      Joined(if a[0].Arg? then [a[0].word] else [], Args(a[1..]), Args(b));
    }
  }

  lemma Joined<T>(a: seq<T>, b: seq<T>, c: seq<T>)
    ensures a + (b + c) == a + b + c
  {
  }

  lemma {:induction false} WrappedArg(c: Cmd, done: seq<Item>, w: string)
    ensures AddArg(Wrapped(c, done), w) == Wrapped(AddArg(c, w), done)
    decreases |done|
  {
    if done != [] { WrappedArg(if done[0].Into? then Redir(c, done[0].file, done[0].mode) else c, done[1..], w); }
  }

  lemma {:induction false} WrappedOne(c: Cmd, done: seq<Item>, i: Item)
    ensures Wrapped(c, done + [i]) == if i.Into? then Redir(Wrapped(c, done), i.file, i.mode) else Wrapped(c, done)
    decreases |done|
  {
    if done == [] {
      assert done + [i] == [i] && [i][1..] == [];
    } else {
      assert (done + [i])[1..] == done[1..] + [i] && (done + [i])[0] == done[0];
      WrappedOne(if done[0].Into? then Redir(c, done[0].file, done[0].mode) else c, done[1..], i);
    }
  }

  lemma ArgsIs(items: seq<Item>)
    requires items != []
    ensures Args(items) == (if items[0].Arg? then [items[0].word] else []) + Args(items[1..])
  {
  }

  /** Arguments join the exec node inside, redirections go around it. */
  lemma {:induction false} AddedIs(argv: seq<string>, done: seq<Item>, items: seq<Item>)
    ensures AddedAll(Wrapped(Exec(argv), done), items) == Wrapped(Exec(argv + Args(items)), done + items)
    decreases |items|
  {
    hide Args, Wrapped;
    if items == [] {
      NoArgs();
      assert argv + [] == argv && done + items == done;
    } else {
      var i := items[0];
      var now := if i.Arg? then [i.word] else [];
      ArgsIs(items);
      Joined(argv, now, Args(items[1..]));
      Joined(done, [i], items[1..]);
      assert [i] + items[1..] == items;
      WrappedOne(Exec(argv + now), done, i);
      if i.Arg? { WrappedArg(Exec(argv), done, i.word); } else { assert argv + now == argv; }
      AddedIs(argv + now, done + [i], items[1..]);
    }
  }

  lemma NoArgs()
    ensures Args([]) == []
  {
  }

  lemma {:induction false} RedirsAdded(c: Cmd, items: seq<Item>)
    requires OnlyRedirs(items)
    ensures AddedAll(c, items) == Wrapped(c, items) && Args(items) == []
    decreases |items|
  {
    if items != [] { RedirsAdded(Redir(c, items[0].file, items[0].mode), items[1..]); }
  }

  /** How the spelling of items starts. */
  lemma SpelledHead(items: seq<Item>, t: seq<Lexeme>)
    requires items != []
    ensures var ls := Spelled(items) + t;
            match items[0]
            case Arg(w) => |ls| >= 1 && ls[0] == Lexeme(WORD, w) && ls[1..] == Spelled(items[1..]) + t
            case Into(m, f) =>
              && |ls| >= 2 && ls[0] == Sign(if m == Read then '<' else '>') && ls[1] == Lexeme(WORD, f)
              && ls[2..] == Spelled(items[1..]) + t
  {
    hide Spelled;
    SpelledIs(items);
    Joined(SpelledOne(items[0]), Spelled(items[1..]), t);
  }

  lemma SpelledIs(items: seq<Item>)
    requires items != []
    ensures Spelled(items) == SpelledOne(items[0]) + Spelled(items[1..])
  {
  }

  // ---- the grammar's strings are parsed ----

  /** As many words as there is room for give the command; one more gives the panic. */
  lemma {:induction false} GoReads(c: Cmd, argc: nat, items: seq<Item>, s: string, t: seq<Lexeme>) returns (r: string)
    requires Lex(s) == Spelled(items) + t && Ends(t, "|)&;") && argc < MAXARGS
    ensures if argc + |Args(items)| < MAXARGS then Go(c, argc, s) == Ok(AddedAll(c, items), r) && Lex(r) == t
            else Go(c, argc, s) == Panic("too many args")
    decreases |items|
  {
    hide Lex, Skip, GetToken, Go, Spelled, Peek, ParseArgs, ParseRedirs, AddArg;
    if items == [] {
      NoItems(t);
      r := GoArg(c, argc, s);
    } else {
      SpelledHead(items, t);
      match items[0] {
        case Arg(w) =>
          var q := GoArg(c, argc, s);
          r := s;
          if argc + 1 < MAXARGS { r := GoReads(AddArg(c, w), argc + 1, items[1..], q, t); }
        case Into(m, f) =>
          var g, q := GoRedir(c, argc, s);
          r := GoReads(Redir(c, f, m), argc, items[1..], q, t);
      }
    }
  }

  lemma NoItems(t: seq<Lexeme>)
    ensures Spelled([]) + t == t
  {
  }

  lemma {:induction false} RedirsRead(c: Cmd, items: seq<Item>, s: string, t: seq<Lexeme>) returns (r: string)
    requires Lex(s) == Spelled(items) + t && OnlyRedirs(items) && Ends(t, "|)&;")
    ensures ParseRedirs(c, s) == Ok(Wrapped(c, items), r) && Lex(r) == t
    decreases |items|
  {
    hide Lex, Skip, GetToken, Spelled, Peek, ParseRedirs;
    if items == [] {
      NoItems(t);
      var f, q := RedirStep(c, s);
      Head(s);
      r := Skip(s);
    } else {
      SpelledHead(items, t);
      var f, q := RedirStep(c, s);
      r := RedirsRead(Redir(c, items[0].file, items[0].mode), items[1..], q, t);
    }
  }

  lemma StartsSimple(items: seq<Item>, t: seq<Lexeme>)
    requires Ends(t, "|)&;")
    ensures Spelled(items) + t == [] || (Spelled(items) + t)[0].kind != '('
  {
    if items == [] { NoItems(t); } else { SpelledHead(items, t); }
  }

  lemma ExecIsGo(s: string)
    requires Lex(s) == [] || Lex(s)[0].kind != '('
    ensures ParseExec(s) == Go(Exec([]), 0, s)
  {
    hide Lex, Skip, GetToken, Peek, ParseArgs, ParseRedirs;
    PeekIs(s, "(");
  }

  /** A simple command in front of what stops it; and with ten words or more, the panic. */
  lemma SimpleReads(items: seq<Item>, s: string, t: seq<Lexeme>) returns (r: string)
    requires Lex(s) == Spelled(items) + t && Ends(t, "|)&;")
    ensures if |Args(items)| < 10 then ParseExec(s) == Ok(Wrapped(Exec(Args(items)), items), r) && Lex(r) == t
            else ParseExec(s) == Panic("too many args")
  {
    hide Lex, Spelled, ParseExec, Go;
    StartsSimple(items, t);
    ExecIsGo(s);
    r := GoReads(Exec([]), 0, items, s, t);
    AddedIs([], [], items);
    assert [] + Args(items) == Args(items) && [] + items == items;
    assert Wrapped(Exec([]), []) == Exec([]);
  }

  lemma {:induction false} UnitReads(c: Cmd, ls: seq<Lexeme>, s: string, t: seq<Lexeme>) returns (r: string)
    requires Unit(c, ls) && Lex(s) == ls + t && Ends(t, "|)&;")
    ensures ParseExec(s) == Ok(c, r) && Lex(r) == t
    decreases |ls|, 0
  {
    hide Lex, Skip, GetToken, Peek, Spelled, Args, Wrapped, ParseExec, ParseLine, ParseRedirs, Line;
    if Simple(c, ls) {
      var items :| ls == Spelled(items) && |Args(items)| < 10 && c == Wrapped(Exec(Args(items)), items);
      r := SimpleReads(items, s, t);
    } else {
      var k: nat, d, items :| Bracketed(c, ls, k, d, items);
      var behind := [Sign(')')] + (Spelled(items) + t);
      assert ls[1..] + t == ls[1..k] + behind;
      Head(s);
      var q := LineReads(d, ls[1..k], GetToken(s).rest, behind);
      Head(q);
      r := RedirsRead(d, items, GetToken(q).rest, t);
      BlockIs(s, d, q);
    }
  }

  lemma BlockIs(s: string, d: Cmd, q: string)
    requires Lex(s) != [] && Lex(s)[0].kind == '(' && ParseLine(GetToken(s).rest) == Ok(d, q)
    ensures ParseExec(s) == if Lex(q) != [] && Lex(q)[0].kind == ')' then ParseRedirs(d, GetToken(q).rest)
                            else Panic("syntax - missing )")
  {
    hide Lex, Skip, GetToken, Peek, ParseRedirs, ParseLine, ParseArgs;
    PeekIs(s, "(");
    PeekIs(q, ")");
  }

  lemma {:induction false} PipesRead(c: Cmd, ls: seq<Lexeme>, s: string, t: seq<Lexeme>) returns (r: string)
    requires Pipes(c, ls) && Lex(s) == ls + t && Ends(t, ")&;")
    ensures ParsePipe(s) == Ok(c, r) && Lex(r) == t
    decreases |ls|, 1
  {
    hide Lex, Skip, GetToken, Peek, ParseExec, Unit;
    if Unit(c, ls) {
      var q := UnitReads(c, ls, s, t);
      PeekIs(q, "|");
      Head(q);
      r := Skip(q);
    } else {
      var k: nat :| Piped(c, ls, k);
      var behind := [Sign('|')] + (ls[k + 1..] + t);
      assert ls + t == ls[..k] + behind;
      var q := UnitReads(c.left, ls[..k], s, behind);
      PeekIs(q, "|");
      Head(q);
      r := PipesRead(c.right, ls[k + 1..], GetToken(q).rest, t);
    }
  }

  /** Behind the ampersands of a command the loop of parseline goes on with that command. */
  lemma {:induction false} BackedReads(c: Cmd, ls: seq<Lexeme>, s: string, t: seq<Lexeme>) returns (r: string)
    requires Backed(c, ls) && Lex(s) == ls + t && Ends(t, ")&;")
    ensures ParsePipe(s).Ok? && Backs(ParsePipe(s).cmd, ParsePipe(s).rest) == Backs(c, r) && Lex(r) == t
    decreases |ls|, 2
  {
    hide Lex, Skip, GetToken, Peek, ParsePipe, Pipes;
    if Pipes(c, ls) {
      r := PipesRead(c, ls, s, t);
    } else {
      var front := ls[..|ls| - 1];
      assert ls + t == front + ([Sign('&')] + t);
      var q := BackedReads(c.cmd, front, s, [Sign('&')] + t);
      PeekIs(q, "&");
      Head(q);
      r := GetToken(q).rest;
    }
  }

  lemma NoMoreBacks(c: Cmd, s: string)
    requires Ends(Lex(s), ");")
    ensures Backs(c, s) == (c, Skip(s)) && Lex(Skip(s)) == Lex(s)
  {
    PeekIs(s, "&");
    LexSkip(s);
  }

  lemma {:induction false} LineReads(c: Cmd, ls: seq<Lexeme>, s: string, t: seq<Lexeme>) returns (r: string)
    requires Line(c, ls) && Lex(s) == ls + t && Ends(t, ")")
    ensures ParseLine(s) == Ok(c, r) && Lex(r) == t
    decreases |ls|, 3
  {
    hide Lex, Skip, GetToken, Peek, ParsePipe, Backed, Backs;
    if Backed(c, ls) {
      var q := BackedReads(c, ls, s, t);
      NoMoreBacks(c, q);
      PeekIs(Skip(q), ";");
      Head(Skip(q));
      r := Skip(Skip(q));
    } else {
      var k: nat :| Listed(c, ls, k);
      var behind := [Sign(';')] + (ls[k + 1..] + t);
      assert ls + t == ls[..k] + behind;
      var q := BackedReads(c.left, ls[..k], s, behind);
      NoMoreBacks(c.left, q);
      PeekIs(Skip(q), ";");
      Head(Skip(q));
      r := LineReads(c.right, ls[k + 1..], GetToken(Skip(q)).rest, t);
    }
  }

  // ---- what is parsed is in the grammar ----

  lemma {:induction false} GoSound(c: Cmd, argc: nat, s: string) returns (items: seq<Item>)
    requires Go(c, argc, s).Ok? && argc < MAXARGS
    ensures Lex(s) == Spelled(items) + Lex(Go(c, argc, s).rest) && Ends(Lex(Go(c, argc, s).rest), "|)&;")
    ensures Go(c, argc, s).cmd == AddedAll(c, items) && argc + |Args(items)| < MAXARGS
    decreases |s|
  {
    hide Lex, Skip, GetToken, Peek, Go, ParseArgs, ParseRedirs, AddArg, Spelled, Args;
    Head(s);
    if Ends(Lex(s), "|();&a") {
      var r := GoArg(c, argc, s);
      if Ends(Lex(s), "|)&;") {
        items := [];
        NoItems(Lex(s));
        NoArgs();
      } else {
        var w := Lex(s)[0].text;
        var more := GoSound(AddArg(c, w), argc + 1, r);
        items := [Arg(w)] + more;
        assert items[1..] == more;
        SpelledIs(items);
        ArgsIs(items);
        assert Lex(s) == [Lex(s)[0]] + Lex(s)[1..];
      }
    } else {
      var f, r := GoRedir(c, argc, s);
      var m := if Lex(s)[0].kind == '<' then Read else Write;
      var more := GoSound(Redir(c, f, m), argc, r);
      items := [Into(m, f)] + more;
      assert items[1..] == more;
      SpelledIs(items);
      ArgsIs(items);
      assert Lex(s) == [Lex(s)[0], Lex(s)[1]] + Lex(s)[2..];
    }
  }

  lemma {:induction false} RedirsSound(c: Cmd, s: string) returns (items: seq<Item>)
    requires ParseRedirs(c, s).Ok?
    ensures Lex(s) == Spelled(items) + Lex(ParseRedirs(c, s).rest) && OnlyRedirs(items)
    ensures ParseRedirs(c, s).cmd == Wrapped(c, items)
    decreases |s|
  {
    hide Lex, Skip, GetToken, Peek, ParseRedirs;
    Head(s);
    var f, r := RedirStep(c, s);
    if Ends(Lex(s), "|();&a") {
      items := [];
    } else {
      var m := if Lex(s)[0].kind == '<' then Read else Write;
      var more := RedirsSound(Redir(c, f, m), r);
      items := [Into(m, f)] + more;
      assert items[1..] == more;
      assert Lex(s) == [Lex(s)[0], Lex(s)[1]] + Lex(s)[2..];
    }
  }

  lemma {:induction false} ExecSound(s: string) returns (ls: seq<Lexeme>)
    requires ParseExec(s).Ok?
    ensures Lex(s) == ls + Lex(ParseExec(s).rest) && Unit(ParseExec(s).cmd, ls)
    decreases |s|, 0
  {
    hide Lex, Skip, GetToken, Peek, Spelled, Args, Wrapped, ParseExec, ParseLine, ParseRedirs, Line, Go, OnlyRedirs;
    Head(s);
    if Lex(s) == [] || Lex(s)[0].kind != '(' {
      ExecIsGo(s);
      var items := GoSound(Exec([]), 0, s);
      AddedIs([], [], items);
      WrappedNothing(items);
      ls := Spelled(items);
      assert Simple(ParseExec(s).cmd, ls);
    } else {
      BlockOk(s);
      var d, q := ParseLine(GetToken(s).rest).cmd, ParseLine(GetToken(s).rest).rest;
      BlockIs(s, d, q);
      var inner := LineSound(GetToken(s).rest);
      Head(q);
      var items := RedirsSound(d, GetToken(q).rest);
      ls := [Sign('(')] + inner + [Sign(')')] + Spelled(items);
      var k := 1 + |inner|;
      assert ls[1..k] == inner && ls[k + 1..] == Spelled(items);
      assert Bracketed(ParseExec(s).cmd, ls, k, d, items);
      assert Lex(s) == [Lex(s)[0]] + Lex(s)[1..] && Lex(q) == [Lex(q)[0]] + Lex(q)[1..];
    }
  }

  lemma WrappedNothing(items: seq<Item>)
    ensures Wrapped(Exec([]), []) == Exec([]) && [] + Args(items) == Args(items) && [] + items == items
  {
  }

  lemma BlockOk(s: string)
    requires ParseExec(s).Ok? && Lex(s) != [] && Lex(s)[0].kind == '('
    ensures ParseLine(GetToken(s).rest).Ok?
  {
    hide Lex, Skip, GetToken, Peek, ParseRedirs, ParseLine, ParseArgs;
    PeekIs(s, "(");
  }

  lemma {:induction false} PipesSound(s: string) returns (ls: seq<Lexeme>)
    requires ParsePipe(s).Ok?
    ensures Lex(s) == ls + Lex(ParsePipe(s).rest) && Pipes(ParsePipe(s).cmd, ls)
    decreases |s|, 1
  {
    hide Lex, Skip, GetToken, Peek, ParseExec, Unit;
    ls := ExecSound(s);
    var c, q := ParseExec(s).cmd, ParseExec(s).rest;
    PeekIs(q, "|");
    Head(q);
    if Peek(q, "|") {
      var more := PipesSound(GetToken(q).rest);
      var all := ls + [Sign('|')] + more;
      assert all[..|ls|] == ls && all[|ls| + 1..] == more;
      assert Piped(ParsePipe(s).cmd, all, |ls|);
      assert Lex(q) == [Lex(q)[0]] + Lex(q)[1..];
      ls := all;
    }
  }

  /** The ampersands that the loop of parseline takes. */
  lemma {:induction false} BacksSound(c: Cmd, before: seq<Lexeme>, s: string) returns (ls: seq<Lexeme>)
    requires Backed(c, before)
    ensures Lex(s) == ls + Lex(Backs(c, s).1) && Backed(Backs(c, s).0, before + ls)
    decreases |s|
  {
    hide Lex, Skip, GetToken, Peek, Pipes;
    PeekIs(s, "&");
    Head(s);
    if Peek(s, "&") {
      var more := before + [Sign('&')];
      assert more[..|more| - 1] == before;
      var rest := BacksSound(Back(c), more, GetToken(s).rest);
      ls := [Sign('&')] + rest;
      assert before + ls == more + rest;
      assert Lex(s) == [Lex(s)[0]] + Lex(s)[1..];
    } else {
      ls := [];
      assert before + [] == before;
    }
  }

  lemma {:induction false} LineSound(s: string) returns (ls: seq<Lexeme>)
    requires ParseLine(s).Ok?
    ensures Lex(s) == ls + Lex(ParseLine(s).rest) && Line(ParseLine(s).cmd, ls)
    decreases |s|, 2
  {
    hide Lex, Skip, GetToken, Peek, ParsePipe, Pipes, Backs, Backed;
    var front := PipesSound(s);
    var c, q := ParsePipe(s).cmd, ParsePipe(s).rest;
    assert Backed(c, front) by { PipesAreBacked(c, front); }
    var backs := BacksSound(c, front, q);
    ls := front + backs;
    var d, r := Backs(c, q).0, Backs(c, q).1;
    PeekIs(r, ";");
    Head(r);
    if Peek(r, ";") {
      var more := LineSound(GetToken(r).rest);
      var all := ls + [Sign(';')] + more;
      assert all[..|ls|] == ls && all[|ls| + 1..] == more;
      assert Listed(ParseLine(s).cmd, all, |ls|);
      assert Lex(r) == [Lex(r)[0]] + Lex(r)[1..];
      ls := all;
    }
  }

  lemma PipesAreBacked(c: Cmd, ls: seq<Lexeme>)
    requires Pipes(c, ls)
    ensures Backed(c, ls)
  {
  }

  // ---- the parser is the grammar ----

  /** A string is parsed to a command if and only if its tokens spell that command; and nothing is left over. */
  lemma ParsesExactly(s: string, c: Cmd)
    ensures ParseCmd(s) == Ok(c, "") <==> Line(c, Lex(s))
    ensures ParseCmd(s).Ok? ==> ParseCmd(s).rest == ""
  {
    hide Lex, Skip, Line, ParseLine;
    if ParseLine(s).Ok? {
      var ls := LineSound(s);
      Head(ParseLine(s).rest);
      assert ls + [] == ls;
    }
    if Line(c, Lex(s)) {
      assert Lex(s) + [] == Lex(s);
      var r := LineReads(c, Lex(s), s, []);
      Head(r);
    }
  }

  /** No tokens spell two commands. */
  lemma Unambiguous(s: string, c: Cmd, d: Cmd)
    requires Line(c, Lex(s)) && Line(d, Lex(s))
    ensures c == d
  {
    hide Lex, Line, ParseCmd;
    ParsesExactly(s, c);
    ParsesExactly(s, d);
  }

  // ---- the tokens of any string, without gettoken ----

  /** The word at the start of a string is as long as it can be. */
  lemma {:induction false} WordIsLongest(s: string)
    ensures var n := WordLength(s);
            (forall i :: 0 <= i < n ==> WordChar(s[i])) && (n < |s| ==> !WordChar(s[n]))
    decreases |s|
  {
    if s != "" && WordChar(s[0]) {
      WordIsLongest(s[1..]);
      var n := WordLength(s[1..]);
      forall i | 0 <= i < n + 1 ensures WordChar(s[i]) { if i > 0 { assert s[i] == s[1..][i - 1]; } }
      assert n + 1 < |s| ==> s[n + 1] == s[1..][n];
    }
  }

  lemma {:induction false} SkippedIsWhite(s: string)
    ensures White(s[..|s| - |Skip(s)|]) && s == s[..|s| - |Skip(s)|] + Skip(s)
    decreases |s|
  {
    if s != "" && s[0] in WHITESPACE {
      SkippedIsWhite(s[1..]);
      var n := |s| - |Skip(s)|;
      assert s[..n] == [s[0]] + s[1..][..n - 1];
    }
  }

  /** The longest token at the start of a string that starts with one. */
  lemma FirstToken(u: string) returns (x: string, r: string)
    requires u != "" && u[0] !in WHITESPACE
    ensures u == x + r && IsToken(x) && |r| < |u|
    ensures Word(x) ==> r == "" || !WordChar(r[0])
    ensures x == ">" ==> r == "" || r[0] != '>'
  {
    Signs();
    SymbolOrWord(u[0]);
    if u[0] !in SYMBOLS {
      WordIsLongest(u);
      var n := WordLength(u);
      x, r := u[..n], u[n..];
      assert Word(x);
      WordIsToken(x);
    } else if u[0] == '>' && |u| > 1 && u[1] == '>' {
      x, r := ">>", u[2..];
    } else {
      x, r := u[..1], u[1..];
      assert x == [u[0]];
      OneSign(u[0]);
    }
  }

  lemma OneSign(c: char)
    requires c in SYMBOLS
    ensures IsToken([c]) && !Word([c])
  {
    assert !WordChar([c][0]);
  }

  /** Every string is a row of tokens with white space between them. */
  lemma {:induction false} EveryString(s: string) returns (xs: seq<string>, gaps: seq<string>)
    ensures Spaced(xs, gaps) && Spread(xs, gaps) == s
    decreases |s|
  {
    hide IsToken, White, Word, Skip;
    SkippedIsWhite(s);
    SkipShorter(s);
    SkipEnds(s);
    var gap, u := s[..|s| - |Skip(s)|], Skip(s);
    if u == "" {
      xs, gaps := [], [gap];
    } else {
      var x, r := FirstToken(u);
      var ys, rest := EveryString(r);
      xs, gaps := [x] + ys, [gap] + rest;
      assert xs[1..] == ys && gaps[1..] == rest;
      SpreadFirst(ys, rest);
      forall i | 0 < i < |xs|
        ensures (Word(xs[i - 1]) && Word(xs[i])) || (xs[i - 1] == ">" && Begins(xs[i], '>')) ==> gaps[i] != "" {
        if i > 1 { assert xs[i] == ys[i - 1] && xs[i - 1] == ys[i - 2] && gaps[i] == rest[i - 1]; }
      }
    }
  }

  lemma SkipEnds(s: string)
    ensures Skip(s) == "" || Skip(s)[0] !in WHITESPACE
  {
  }

  /** Without a gap in front a row starts as its first token does. */
  lemma SpreadFirst(ys: seq<string>, gaps: seq<string>)
    requires Spaced(ys, gaps)
    ensures ys != [] && gaps[0] == "" ==>
              var r := Spread(ys, gaps);
              r != "" && (Word(ys[0]) ==> WordChar(r[0])) && (Begins(ys[0], '>') ==> r[0] == '>')
  {
    if ys != [] && gaps[0] == "" {
      assert IsToken(ys[0]);
      if !Word(ys[0]) { SignIsSymbol(ys[0]); }
      assert Spread(ys, gaps)[0] == ys[0][0];
    }
  }

  /** The same with nothing of the parser: however a row of tokens is spaced, it is parsed to a command if and only if the
      tokens spell it; and every string is such a row. */
  lemma TokensDecide(xs: seq<string>, gaps: seq<string>, c: Cmd)
    requires Spaced(xs, gaps)
    ensures ParseCmd(Spread(xs, gaps)) == Ok(c, "") <==> Line(c, Lexemes(xs))
  {
    hide Lex, Line, ParseCmd, Spread, Lexemes;
    LexSpread(xs, gaps);
    ParsesExactly(Spread(xs, gaps), c);
  }
}
