/**
 What the shell's parser makes of a string depends on its tokens alone, with >> read like >; so a
 command is read back however it is spaced.
 */
module ShSpacing {
  import opened ShModel

  /** A token as the parser sees it: >> is another way to write >, and only a word has text. */
  datatype Lexeme = Lexeme(kind: char, text: string)

  function Seen(t: Token): Lexeme { Lexeme(if t.kind == APPEND then '>' else t.kind, if t.kind == WORD then t.text else "") }

  function Lex(s: string): seq<Lexeme>
    decreases |s|
  {
    if Skip(s) == "" then [] else [Seen(GetToken(s))] + Lex(GetToken(s).rest)
  }

  lemma LexSkip(s: string)
    ensures Lex(Skip(s)) == Lex(s)
  {
    SkipNothing(Skip(s));
  }

  // ---- the parser on strings with the same tokens ----

  predicate OnlySymbols(toks: string) { forall i :: 0 <= i < |toks| ==> toks[i] in SYMBOLS }

  /** peek looks at the first token. */
  lemma PeekSees(s: string, toks: string)
    requires OnlySymbols(toks)
    ensures Peek(s, toks) <==> Lex(s) != [] && Lex(s)[0].kind in toks
  {
    var u := Skip(s);
    if u != "" {
      SymbolOrWord(u[0]);
      assert WORD !in SYMBOLS;
      assert '>' in SYMBOLS && (forall c :: c in "|();&<" ==> c in SYMBOLS);
    }
  }

  lemma SymbolOrWord(c: char)
    requires c !in WHITESPACE
    ensures c in SYMBOLS <==> c in "|();&<" || c == '>'
    ensures c !in SYMBOLS ==> WordChar(c)
  {
  }

  lemma Symbols()
    ensures OnlySymbols("<>") && OnlySymbols("|)&;") && OnlySymbols("(") && OnlySymbols("|") && OnlySymbols("&")
    ensures OnlySymbols(";") && OnlySymbols(")")
  {
    assert "<>"[0] == '<' && "<>"[1] == '>';
    assert "|)&;"[0] == '|' && "|)&;"[1] == ')' && "|)&;"[2] == '&' && "|)&;"[3] == ';';
  }

  /** The first token, and what is behind it. */
  lemma SameHead(s: string, t: string)
    requires Lex(s) == Lex(t)
    ensures GetToken(s).kind == END <==> Skip(s) == ""
    ensures Skip(s) == "" <==> Skip(t) == ""
    ensures GetToken(s).kind == END <==> GetToken(t).kind == END
    ensures GetToken(s).kind == WORD <==> GetToken(t).kind == WORD
    ensures GetToken(s).kind == WORD ==> GetToken(s).text == GetToken(t).text
    ensures GetToken(s).kind == '<' <==> GetToken(t).kind == '<'
    ensures Lex(GetToken(s).rest) == Lex(GetToken(t).rest)
  {
    KindIs(s);
    KindIs(t);
    if Skip(s) != "" {
      assert Lex(s)[0] == Seen(GetToken(s)) && Lex(s)[1..] == Lex(GetToken(s).rest);
      assert Lex(t)[0] == Seen(GetToken(t)) && Lex(t)[1..] == Lex(GetToken(t).rest);
    } else {
      assert GetToken(s) == GetToken(t);
    }
  }

  lemma KindIs(s: string)
    ensures GetToken(s).kind == END <==> Skip(s) == ""
  {
    assert END !in "|();&<";
  }

  /** The same tree and the same tokens left, or the same panic. */
  predicate Alike(p: Parsed, q: Parsed) {
    match p
    case Panic(why) => q == Panic(why)
    case Ok(c, r) => q.Ok? && q.cmd == c && Lex(q.rest) == Lex(r)
  }

  lemma {:induction false} SameRedirs(c: Cmd, s: string, t: string)
    requires Lex(s) == Lex(t)
    ensures Alike(ParseRedirs(c, s), ParseRedirs(c, t))
    decreases |s|
  {
    hide Lex, Peek, GetToken, Skip;
    Symbols();
    PeekSees(s, "<>");
    PeekSees(t, "<>");
    LexSkip(s);
    LexSkip(t);
    if Peek(s, "<>") {
      SameHead(s, t);
      PeekMeansMore(s, "<>");
      var x, y := GetToken(s), GetToken(t);
      SameHead(x.rest, y.rest);
      var f, g := GetToken(x.rest), GetToken(y.rest);
      TokenShorter(s);
      TokenShorter(x.rest);
      if f.kind == WORD { SameRedirs(Redir(c, f.text, ModeOf(x.kind)), f.rest, g.rest); }
    }
  }

  lemma PeekMeansMore(s: string, toks: string)
    requires Peek(s, toks)
    ensures Skip(s) != ""
  {
  }

  lemma TokenShorter(s: string)
    ensures |GetToken(s).rest| <= |s| && (Skip(s) != "" ==> |GetToken(s).rest| < |s|)
  {
  }

  lemma {:induction false} SameArgs(c: Cmd, argc: nat, s: string, t: string)
    requires Lex(s) == Lex(t)
    ensures Alike(ParseArgs(c, argc, s), ParseArgs(c, argc, t))
    decreases |s|
  {
    hide Lex, Peek, GetToken, Skip, ParseRedirs;
    Symbols();
    PeekSees(s, "|)&;");
    PeekSees(t, "|)&;");
    LexSkip(s);
    LexSkip(t);
    SameHead(s, t);
    TokenShorter(s);
    var x, y := GetToken(s), GetToken(t);
    if !Peek(s, "|)&;") && x.kind == WORD && argc + 1 < MAXARGS {
      var d := AddArg(c, x.text);
      SameRedirs(d, x.rest, y.rest);
      if ParseRedirs(d, x.rest).Ok? {
        SameArgs(ParseRedirs(d, x.rest).cmd, argc + 1, ParseRedirs(d, x.rest).rest, ParseRedirs(d, y.rest).rest);
      }
    }
  }

  lemma {:induction false} SameExec(s: string, t: string)
    requires Lex(s) == Lex(t)
    ensures Alike(ParseExec(s), ParseExec(t))
    decreases |s|, 1
  {
    hide Lex, Peek, GetToken, Skip, ParseRedirs, ParseArgs, ParseBlock;
    Symbols();
    PeekSees(s, "(");
    PeekSees(t, "(");
    if Peek(s, "(") {
      SameBlock(s, t);
    } else {
      SameRedirs(Exec([]), s, t);
      if ParseRedirs(Exec([]), s).Ok? {
        SameArgs(ParseRedirs(Exec([]), s).cmd, 0, ParseRedirs(Exec([]), s).rest, ParseRedirs(Exec([]), t).rest);
      }
    }
  }

  lemma {:induction false} SameBlock(s: string, t: string)
    requires Lex(s) == Lex(t)
    ensures Alike(ParseBlock(s), ParseBlock(t))
    decreases |s|, 0
  {
    hide Lex, Peek, GetToken, Skip, ParseRedirs, ParseLine;
    Symbols();
    PeekSees(s, "(");
    PeekSees(t, "(");
    if Peek(s, "(") {
      PeekMeansMore(s, "(");
      SameHead(s, t);
      TokenShorter(s);
      var x, y := GetToken(s).rest, GetToken(t).rest;
      SameLine(x, y);
      if ParseLine(x).Ok? {
        var p, q := ParseLine(x).rest, ParseLine(y).rest;
        PeekSees(p, ")");
        PeekSees(q, ")");
        SameHead(p, q);
        SameRedirs(ParseLine(x).cmd, GetToken(p).rest, GetToken(q).rest);
      }
    }
  }

  lemma {:induction false} SamePipe(s: string, t: string)
    requires Lex(s) == Lex(t)
    ensures Alike(ParsePipe(s), ParsePipe(t))
    decreases |s|, 2
  {
    hide Lex, Peek, GetToken, Skip, ParseExec;
    Symbols();
    SameExec(s, t);
    if ParseExec(s).Ok? {
      var p, q := ParseExec(s).rest, ParseExec(t).rest;
      PeekSees(p, "|");
      PeekSees(q, "|");
      LexSkip(p);
      LexSkip(q);
      if Peek(p, "|") {
        PeekMeansMore(p, "|");
        SameHead(p, q);
        TokenShorter(p);
        SamePipe(GetToken(p).rest, GetToken(q).rest);
      }
    }
  }

  lemma {:induction false} SameBacks(c: Cmd, s: string, t: string)
    requires Lex(s) == Lex(t)
    ensures Backs(c, s).0 == Backs(c, t).0 && Lex(Backs(c, s).1) == Lex(Backs(c, t).1)
    decreases |s|
  {
    hide Lex, Peek, GetToken, Skip;
    Symbols();
    PeekSees(s, "&");
    PeekSees(t, "&");
    LexSkip(s);
    LexSkip(t);
    if Peek(s, "&") {
      PeekMeansMore(s, "&");
      SameHead(s, t);
      TokenShorter(s);
      SameBacks(Back(c), GetToken(s).rest, GetToken(t).rest);
    }
  }

  lemma {:induction false} SameLine(s: string, t: string)
    requires Lex(s) == Lex(t)
    ensures Alike(ParseLine(s), ParseLine(t))
    decreases |s|, 3
  {
    hide Lex, Peek, GetToken, Skip, ParsePipe, Backs;
    Symbols();
    SamePipe(s, t);
    if ParsePipe(s).Ok? {
      var c := ParsePipe(s).cmd;
      SameBacks(c, ParsePipe(s).rest, ParsePipe(t).rest);
      var p, q := Backs(c, ParsePipe(s).rest).1, Backs(c, ParsePipe(t).rest).1;
      PeekSees(p, ";");
      PeekSees(q, ";");
      LexSkip(p);
      LexSkip(q);
      if Peek(p, ";") {
        PeekMeansMore(p, ";");
        SameHead(p, q);
        TokenShorter(p);
        SameLine(GetToken(p).rest, GetToken(q).rest);
      }
    }
  }

  /** Strings with the same tokens are parsed to the same result. */
  lemma SameTokensSameCommand(s: string, t: string)
    requires Lex(s) == Lex(t)
    ensures ParseCmd(s) == ParseCmd(t)
  {
    SameLine(s, t);
    if ParseLine(s).Ok? {
      hide ParseLine, GetToken, Skip;
      SameHead(ParseLine(s).rest, ParseLine(t).rest);
    }
  }

  // ---- tokens and the white space between them ----

  predicate White(s: string) { forall i :: 0 <= i < |s| ==> s[i] in WHITESPACE }

  predicate IsToken(x: string) {
    Word(x) || x == "<" || x == ">" || x == ">>" || x == "|" || x == "&" || x == ";" || x == "(" || x == ")"
  }

  function LexemeOf(x: string): Lexeme
    requires IsToken(x)
  {
    if Word(x) then Lexeme(WORD, x) else Lexeme(x[0], "")
  }

  predicate AllTokens(xs: seq<string>) { forall i :: 0 <= i < |xs| ==> IsToken(xs[i]) }

  function Lexemes(xs: seq<string>): seq<Lexeme>
    requires AllTokens(xs)
  {
    if xs == [] then [] else [LexemeOf(xs[0])] + Lexemes(xs[1..])
  }

  /** The tokens with gaps[i] in front of token i and the last gap at the end. */
  function Spread(xs: seq<string>, gaps: seq<string>): string
    requires |gaps| == |xs| + 1
  {
    if xs == [] then gaps[0] else gaps[0] + (xs[0] + Spread(xs[1..], gaps[1..]))
  }

  predicate Begins(x: string, c: char) { x != "" && x[0] == c }

  /** Only white space is between the tokens, and there is some between two words, and between two signs >. */
  predicate Spaced(xs: seq<string>, gaps: seq<string>) {
    && AllTokens(xs) && |gaps| == |xs| + 1 && (forall i :: 0 <= i < |gaps| ==> White(gaps[i]))
    && forall i :: 0 < i < |xs| ==> (Word(xs[i - 1]) && Word(xs[i])) || (xs[i - 1] == ">" && Begins(xs[i], '>')) ==> gaps[i] != ""
  }

  lemma {:induction false} LexSpace(w: string, r: string)
    requires White(w)
    ensures Lex(w + r) == Lex(r)
    decreases |w|
  {
    if w == "" {
      assert w + r == r;
    } else {
      LexSpace(w[1..], r);
      assert (w + r)[1..] == w[1..] + r && (w + r)[0] in WHITESPACE;
      SkipOne(w + r);
    }
  }

  lemma SkipOne(s: string)
    requires s != "" && s[0] in WHITESPACE
    ensures Lex(s) == Lex(s[1..])
  {
    assert Skip(s) == Skip(s[1..]);
    LexSkip(s);
    LexSkip(s[1..]);
  }

  /** A token in front of something that does not go on with it. */
  lemma LexToken(x: string, r: string)
    requires IsToken(x) && (Word(x) ==> r == "" || !WordChar(r[0])) && (x == ">" ==> r == "" || r[0] != '>')
    ensures Lex(x + r) == [LexemeOf(x)] + Lex(r)
  {
    if Word(x) {
      WordToken(x, r);
      LexSkip(r);
    } else {
      SignToken(x, r);
      LexSkip(r);
    }
  }

  lemma SignToken(x: string, r: string)
    requires IsToken(x) && !Word(x) && (x == ">" ==> r == "" || r[0] != '>')
    ensures Skip(x + r) == x + r && Seen(GetToken(x + r)) == LexemeOf(x) && GetToken(x + r).rest == Skip(r)
  {
    var s := x + r;
    assert s[0] == x[0];
    SignIsSymbol(x);
    SkipNothing(s);
    assert |x| == 1 ==> s[1..] == r;
    if x == ">>" { assert s[1] == '>' && s[2..] == r; }
    if x == ">" && r != "" { assert s[1] == r[0]; }
  }

  lemma SignIsSymbol(x: string)
    requires IsToken(x) && !Word(x)
    ensures x != "" && x[0] !in WHITESPACE && !WordChar(x[0]) && (x[0] == '>' || (|x| == 1 && x[0] in "|();&<"))
  {
    assert '<' in SYMBOLS && '>' in SYMBOLS && '|' in SYMBOLS && ')' in SYMBOLS && '&' in SYMBOLS && ';' in SYMBOLS && '(' in SYMBOLS;
    IsASymbol(x[0]);
  }

  /** The string has exactly these tokens. */
  lemma {:induction false} LexSpread(xs: seq<string>, gaps: seq<string>)
    requires Spaced(xs, gaps)
    ensures Lex(Spread(xs, gaps)) == Lexemes(xs)
    decreases |xs|
  {
    hide Lex, IsToken, White, LexemeOf, Spaced;
    SpacedTail(xs, gaps);
    if xs == [] {
      assert gaps[0] + "" == gaps[0];
      LexSpace(gaps[0], "");
      NoTokens();
    } else {
      var more, rest := xs[1..], gaps[1..];
      LexSpread(more, rest);
      GoesOn(xs, gaps);
      LexSpace(gaps[0], xs[0] + Spread(more, rest));
      LexToken(xs[0], Spread(more, rest));
    }
  }

  lemma SpacedTail(xs: seq<string>, gaps: seq<string>)
    requires Spaced(xs, gaps)
    ensures AllTokens(xs) && |gaps| == |xs| + 1 && White(gaps[0])
    ensures xs != [] ==> IsToken(xs[0]) && Spaced(xs[1..], gaps[1..])
  {
    hide IsToken, White, Word;
    if xs != [] {
      var more, rest := xs[1..], gaps[1..];
      assert forall i :: 0 <= i < |more| ==> more[i] == xs[i + 1];
      assert forall i :: 0 <= i < |rest| ==> rest[i] == gaps[i + 1];
    }
  }

  lemma NoTokens()
    ensures Lex("") == []
  {
  }

  /** What follows the first token does not go on with it. */
  lemma GoesOn(xs: seq<string>, gaps: seq<string>)
    requires Spaced(xs, gaps) && xs != []
    ensures var r := Spread(xs[1..], gaps[1..]);
            (Word(xs[0]) ==> r == "" || !WordChar(r[0])) && (xs[0] == ">" ==> r == "" || r[0] != '>')
  {
    var r := Spread(xs[1..], gaps[1..]);
    assert '>' !in WHITESPACE;
    if gaps[1] != "" {
      assert r[0] == gaps[1][0] && White(gaps[1]);
    } else if |xs| > 1 {
      assert xs[1..][0] == xs[1] && IsToken(xs[1]) && r[0] == xs[1][0];
      if !Word(xs[1]) { SignIsSymbol(xs[1]); }
    }
  }

  // ---- the tokens of a written command ----

  function TokensOf(c: Cmd): (xs: seq<string>)
    decreases c, 0
  {
    match c
    case Exec(argv) => argv
    case Redir(b, f, m) => TokensAt(b, UNIT) + [if m == Read then "<" else ">", f]
    case Pipe(l, r) => TokensAt(l, UNIT) + ["|"] + TokensAt(r, PIPES)
    case Back(b) => TokensAt(b, BACKS) + ["&"]
    case List(l, r) => TokensAt(l, BACKS) + [";"] + TokensAt(r, LINE)
  }

  function TokensAt(c: Cmd, level: nat): (xs: seq<string>)
    decreases c, 1
  {
    if Level(c) <= level then TokensOf(c) else ["("] + TokensOf(c) + [")"]
  }

  lemma {:induction false} AreTokens(c: Cmd)
    requires WellFormed(c)
    ensures AllTokens(TokensOf(c)) && forall level: nat :: AllTokens(TokensAt(c, level))
  {
    match c
    case Exec(argv) =>
    case Redir(b, f, m) => AreTokens(b);
    case Pipe(l, r) =>
      AreTokens(l);
      AreTokens(r);
    case Back(b) => AreTokens(b);
    case List(l, r) =>
      AreTokens(l);
      AreTokens(r);
  }

  lemma {:induction false} LexemesJoin(xs: seq<string>, ys: seq<string>)
    requires AllTokens(xs) && AllTokens(ys)
    ensures AllTokens(xs + ys) && Lexemes(xs + ys) == Lexemes(xs) + Lexemes(ys)
    decreases |xs|
  {
    hide IsToken, LexemeOf;
    if xs == [] {
      assert xs + ys == ys;
    } else {
      assert (xs + ys)[1..] == xs[1..] + ys;
      LexemesJoin(xs[1..], ys);
    }
  }

  /** Nothing of r belongs to a word in front of it. */
  predicate EndsWord(r: string) { r == "" || !WordChar(r[0]) }

  lemma {:induction false} LexWords(argv: seq<string>, r: string)
    requires (forall i :: 0 <= i < |argv| ==> Word(argv[i])) && EndsWord(r)
    ensures AllTokens(argv) && Lex(Words(argv) + r) == Lexemes(argv) + Lex(r)
    decreases |argv|
  {
    hide Lex, Words;
    if argv == [] {
      NoWords();
      assert "" + r == r;
    } else if |argv| == 1 {
      WordsSplit(argv, r);
      WordIsToken(argv[0]);
      LexToken(argv[0], r);
      assert argv[1..] == [];
    } else {
      var next := Words(argv[1..]) + r;
      LexWords(argv[1..], r);
      WordsSplit(argv, r);
      BlankEnds(next);
      WordIsToken(argv[0]);
      LexToken(argv[0], [' '] + next);
      LexSpace([' '], next);
    }
  }

  lemma NoWords()
    ensures Words([]) == ""
  {
  }

  lemma BlankEnds(s: string)
    ensures EndsWord([' '] + s) && White([' '])
  {
    assert ' ' in WHITESPACE;
  }

  /** One sign in front of the rest. */
  lemma LexSign(x: string, r: string)
    requires IsToken(x) && !Word(x) && (x == ">" ==> r == "" || r[0] != '>')
    ensures Lex(x + r) == [LexemeOf(x)] + Lex(r) && EndsWord(x + r)
    ensures AllTokens([x]) && Lexemes([x]) == [LexemeOf(x)]
  {
    LexToken(x, r);
    SignIsSymbol(x);
    assert (x + r)[0] == x[0];
    assert [x][1..] == [];
  }

  lemma Signs()
    ensures IsToken("<") && IsToken(">") && IsToken(">>") && IsToken("|") && IsToken("&") && IsToken(";") && IsToken("(") && IsToken(")")
    ensures !Word("<") && !Word(">") && !Word(">>") && !Word("|") && !Word("&") && !Word(";") && !Word("(") && !Word(")")
    ensures LexemeOf(">>") == LexemeOf(">")
  {
    assert '<' in SYMBOLS && '>' in SYMBOLS && '|' in SYMBOLS && ')' in SYMBOLS && '&' in SYMBOLS && ';' in SYMBOLS && '(' in SYMBOLS;
    assert !WordChar("<"[0]) && !WordChar(">"[0]) && !WordChar(">>"[0]) && !WordChar("|"[0]) && !WordChar("&"[0]);
    assert !WordChar(";"[0]) && !WordChar("("[0]) && !WordChar(")"[0]);
  }

  /** The tokens of the written form of a command, and of what follows it. */
  lemma {:induction false} LexText(c: Cmd, r: string)
    requires WellFormed(c) && EndsWord(r)
    ensures AllTokens(TokensOf(c)) && Lex(Text(c) + r) == Lexemes(TokensOf(c)) + Lex(r)
    decreases c, 1
  {
    hide Lex, IsToken, LexemeOf, Lexemes, WordChar, AllTokens;
    AreTokens(c);
    Signs();
    match c {
      case Exec(argv) => LexWords(argv, r);
      case Redir(b, f, m) =>
        LexRedir(b, f, if m == Read then "<" else ">", r);
      case Pipe(x, y) => LexPair(c, x, "|", y, UNIT, PIPES, r);
      case Back(b) =>
        LexSign("&", r);
        LexAt(b, BACKS, "&" + r);
        assert Text(c) + r == At(b, BACKS) + ("&" + r);
        AreTokens(b);
        LexemesJoin(TokensAt(b, BACKS), ["&"]);
      case List(x, y) => LexPair(c, x, ";", y, BACKS, LINE, r);
    }
  }

  lemma {:induction false} LexAt(c: Cmd, level: nat, r: string)
    requires WellFormed(c) && EndsWord(r)
    ensures AllTokens(TokensAt(c, level)) && Lex(At(c, level) + r) == Lexemes(TokensAt(c, level)) + Lex(r)
    decreases c, 2
  {
    hide Lex, IsToken, LexemeOf, Lexemes, WordChar, AllTokens, Text, TokensOf;
    AreTokens(c);
    Signs();
    if Level(c) <= level {
      LexText(c, r);
    } else {
      LexSign(")", r);
      LexText(c, ")" + r);
      LexSign("(", Text(c) + (")" + r));
      assert "(" + Text(c) + ")" + r == "(" + (Text(c) + (")" + r));
      LexemesJoin(["("], TokensOf(c));
      LexemesJoin(["("] + TokensOf(c), [")"]);
    }
  }

  lemma {:induction false} LexRedir(b: Cmd, f: string, sign: string, r: string)
    requires WellFormed(b) && Word(f) && EndsWord(r) && (sign == "<" || sign == ">" || sign == ">>")
    ensures AllTokens(TokensAt(b, UNIT) + [sign, f])
    ensures Lex(At(b, UNIT) + sign + f + r) == Lexemes(TokensAt(b, UNIT) + [sign, f]) + Lex(r)
    decreases b, 3
  {
    hide Lex, IsToken, LexemeOf, WordChar, Text, TokensOf, TokensAt, At;
    AreTokens(b);
    Signs();
    WordIsToken(f);
    LexToken(f, r);
    WordFirst(f, r);
    LexSign(sign, f + r);
    LexAt(b, UNIT, sign + (f + r));
    assert At(b, UNIT) + sign + f + r == At(b, UNIT) + (sign + (f + r));
    LexemesJoin(TokensAt(b, UNIT), [sign, f]);
    assert [sign, f][1..] == [f] && [f][1..] == [];
  }

  lemma WordIsToken(f: string)
    requires Word(f)
    ensures IsToken(f) && f != ">"
  {
    NotASymbol(f[0]);
  }

  lemma WordFirst(f: string, r: string)
    requires Word(f)
    ensures f + r != "" && (f + r)[0] != '>'
  {
    assert (f + r)[0] == f[0];
    NotASymbol(f[0]);
  }

  lemma {:induction false} LexPair(c: Cmd, x: Cmd, sign: string, y: Cmd, left: nat, right: nat, r: string)
    requires WellFormed(x) && WellFormed(y) && EndsWord(r) && (sign == "|" || sign == ";")
    requires c == Pipe(x, y) || c == List(x, y)
    ensures AllTokens(TokensAt(x, left) + [sign] + TokensAt(y, right))
    ensures Lex(At(x, left) + sign + At(y, right) + r) == Lexemes(TokensAt(x, left) + [sign] + TokensAt(y, right)) + Lex(r)
    decreases c, 0
  {
    hide Lex, IsToken, LexemeOf, Lexemes, WordChar, Text, TokensOf, TokensAt, At, AllTokens;
    AreTokens(x);
    AreTokens(y);
    Signs();
    LexAt(y, right, r);
    LexSign(sign, At(y, right) + r);
    LexAt(x, left, sign + (At(y, right) + r));
    assert At(x, left) + sign + At(y, right) + r == At(x, left) + (sign + (At(y, right) + r));
    LexemesJoin(TokensAt(x, left), [sign]);
    LexemesJoin(TokensAt(x, left) + [sign], TokensAt(y, right));
  }

  // ---- the round trip with any spacing ----

  /** The same tokens, except that a > may be written >>. */
  predicate Written(xs: seq<string>, ys: seq<string>) {
    |xs| == |ys| && forall i :: 0 <= i < |xs| ==> xs[i] == ys[i] || (xs[i] == ">>" && ys[i] == ">")
  }

  lemma {:induction false} WrittenAlike(xs: seq<string>, ys: seq<string>)
    requires Written(xs, ys) && AllTokens(xs) && AllTokens(ys)
    ensures Lexemes(xs) == Lexemes(ys)
    decreases |xs|
  {
    hide LexemeOf, IsToken;
    Signs();
    if xs != [] { WrittenAlike(xs[1..], ys[1..]); }
  }

  /** However the tokens of a well-formed command are spaced, with any white space behind the last one, and whether > is
      written > or >>, the parser gives the command back and leaves nothing over. */
  lemma AnySpacing(c: Cmd, xs: seq<string>, gaps: seq<string>)
    requires WellFormed(c) && Spaced(xs, gaps) && Written(xs, TokensOf(c))
    ensures ParseCmd(Spread(xs, gaps)) == Ok(c, "")
  {
    hide Lex, ParseCmd, Text, TokensOf, Spread, Written;
    LexText(c, "");
    NoTokens();
    assert Text(c) + "" == Text(c);
    LexSpread(xs, gaps);
    WrittenAlike(xs, TokensOf(c));
    SameTokensSameCommand(Spread(xs, gaps), Text(c));
    RoundTrip(c);
  }

  /** A redirection with >> opens the file for writing, like one with >. */
  lemma AppendIsWrite(b: Cmd, f: string)
    requires WellFormed(b) && Word(f)
    ensures ParseCmd(At(b, UNIT) + ">>" + f) == Ok(Redir(b, f, Write), "")
  {
    hide Lex, ParseCmd, At, TokensAt, IsToken, WordChar;
    var c := Redir(b, f, Write);
    LexRedir(b, f, ">>", "");
    LexRedir(b, f, ">", "");
    AreTokens(b);
    SameSigns(TokensAt(b, UNIT), f);
    assert At(b, UNIT) + ">>" + f + "" == At(b, UNIT) + ">>" + f;
    assert At(b, UNIT) + ">" + f + "" == At(b, UNIT) + ">" + f == Text(c);
    SameTokensSameCommand(At(b, UNIT) + ">>" + f, Text(c));
    RoundTrip(c);
  }

  lemma SameSigns(xs: seq<string>, f: string)
    requires AllTokens(xs) && Word(f)
    ensures AllTokens(xs + [">>", f]) && AllTokens(xs + [">", f]) && Lexemes(xs + [">>", f]) == Lexemes(xs + [">", f])
  {
    Signs();
    WordIsToken(f);
    assert AllTokens([">>", f]) && AllTokens([">", f]);
    LexemesJoin(xs, [">>", f]);
    LexemesJoin(xs, [">", f]);
    assert [">>", f][1..] == [f] == [">", f][1..];
  }

  /** One more token in front of the others. */
  lemma SpreadMore(x: string, gap: string, xs: seq<string>, gaps: seq<string>)
    requires |gaps| == |xs| + 1
    ensures Spread([x] + xs, [gap] + gaps) == gap + (x + Spread(xs, gaps))
  {
    assert ([x] + xs)[1..] == xs && ([gap] + gaps)[1..] == gaps;
  }

  lemma SpreadFour(a: string, b: string, c: string, d: string, g: string)
    ensures Spread([a, b, c, d], ["", " ", " ", " ", g]) == "" + (a + (" " + (b + (" " + (c + (" " + (d + g)))))))
  {
    assert [" "] + [g] == [" ", g] && [" "] + [" ", g] == [" ", " ", g];
    assert [""] + [" ", " ", " ", g] == ["", " ", " ", " ", g] && [" "] + [" ", " ", g] == [" ", " ", " ", g];
    assert [d] + [] == [d] && [c] + [d] == [c, d] && [b] + [c, d] == [b, c, d] && [a] + [b, c, d] == [a, b, c, d];
    SpreadMore(d, " ", [], [g]);
    hide Spread;
    SpreadMore(c, " ", [d], [" ", g]);
    SpreadMore(b, " ", [c, d], [" ", " ", g]);
    SpreadMore(a, "", [b, c, d], [" ", " ", " ", g]);
  }

  lemma Letters()
    ensures Word("echo") && Word("hi") && Word("f") && White("") && White(" ") && White("\n")
  {
  }

  lemma EchoLine()
    ensures "" + ("echo" + (" " + ("hi" + (" " + (">>" + (" " + ("f" + "\n"))))))) == "echo hi >> f\n"
  {
  }

  /** A line as gets leaves it. */
  lemma EchoAppends()
    ensures ParseCmd("echo hi >> f\n") == Ok(Redir(Exec(["echo", "hi"]), "f", Write), "")
  {
    hide Word, White, Spread, ParseCmd, IsToken;
    Letters();
    Signs();
    WordIsToken("echo");
    WordIsToken("hi");
    WordIsToken("f");
    SpreadFour("echo", "hi", ">>", "f", "\n");
    EchoLine();
    AnySpacing(Redir(Exec(["echo", "hi"]), "f", Write), ["echo", "hi", ">>", "f"], ["", " ", " ", " ", "\n"]);
  }
}
