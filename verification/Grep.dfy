/**
 The regular expression matcher of grep: its loops and mutual recursion against the language
 that a pattern denotes.
 */
module Grep {
  /** A NUL-terminated string, without the terminator. */
  type CString = s: string | '\0' !in s

  // ---- what a pattern denotes ----

  /** One character to match, or any number of them. */
  datatype Item = One(c: char) | Star(c: char)

  /** The items of a pattern, and whether it ends with $. */
  datatype Pattern = Pattern(items: seq<Item>, toEnd: bool)

  function Parse(re: string): Pattern {
    if re == "" then Pattern([], false)
    else if |re| > 1 && re[1] == '*' then
      var rest := Parse(re[2..]);
      Pattern([Star(re[0])] + rest.items, rest.toEnd)
    else if re == "$" then Pattern([], true)
    else
      var rest := Parse(re[1..]);
      Pattern([One(re[0])] + rest.items, rest.toEnd)
  }

  predicate Fits(c: char, x: char) { c == '.' || c == x }

  /** The strings of one item. */
  predicate ItemSpells(item: Item, s: string) {
    match item
    case One(c) => |s| == 1 && Fits(c, s[0])
    case Star(c) => forall i :: 0 <= i < |s| ==> Fits(c, s[i])
  }

  function Concat(pieces: seq<string>): string {
    if pieces == [] then "" else pieces[0] + Concat(pieces[1..])
  }

  /** s is cut into one piece for each item, each in the language of its item. */
  ghost predicate Cut(items: seq<Item>, pieces: seq<string>, s: string) {
    && |pieces| == |items| && Concat(pieces) == s
    && forall i :: 0 <= i < |items| ==> ItemSpells(items[i], pieces[i])
  }

  /** The language of a row of items. */
  ghost predicate InLanguage(items: seq<Item>, s: string) {
    exists pieces :: Cut(items, pieces, s)
  }

  /** The part of text from lo to hi is matched by p. */
  ghost predicate Found(p: Pattern, text: string, lo: nat, hi: nat) {
    lo <= hi <= |text| && (p.toEnd ==> hi == |text|) && InLanguage(p.items, text[lo..hi])
  }

  ghost predicate MatchesAt(p: Pattern, text: string, lo: nat) { exists hi: nat :: Found(p, text, lo, hi) }

  /** What match promises: some part of text is in the language, the first part if the pattern starts with ^. */
  ghost predicate Matches(re: string, text: string) {
    if re != "" && re[0] == '^' then MatchesAt(Parse(re[1..]), text, 0)
    else exists lo: nat :: MatchesAt(Parse(re), text, lo)
  }

  // ---- unfolding the language from the left ----

  lemma NoItems(s: string)
    ensures InLanguage([], s) <==> s == ""
  {
    if s == "" { assert Cut([], [], s); }
  }

  lemma FirstOne(c: char, rest: seq<Item>, s: string)
    ensures InLanguage([One(c)] + rest, s) <==> s != "" && Fits(c, s[0]) && InLanguage(rest, s[1..])
  {
    var items := [One(c)] + rest;
    if InLanguage(items, s) {
      var pieces :| Cut(items, pieces, s);
      assert ItemSpells(items[0], pieces[0]);
      assert s[1..] == Concat(pieces[1..]);
      forall i | 0 <= i < |rest| ensures ItemSpells(rest[i], pieces[1..][i]) { assert rest[i] == items[i + 1]; }
      assert Cut(rest, pieces[1..], s[1..]);
    }
    if s != "" && Fits(c, s[0]) && InLanguage(rest, s[1..]) {
      var pieces :| Cut(rest, pieces, s[1..]);
      var all := [[s[0]]] + pieces;
      assert all[1..] == pieces && [s[0]] + s[1..] == s;
      assert Cut(items, all, s);
    }
  }

  lemma FirstStar(c: char, rest: seq<Item>, s: string)
    ensures InLanguage([Star(c)] + rest, s) <==>
            exists k :: 0 <= k <= |s| && ItemSpells(Star(c), s[..k]) && InLanguage(rest, s[k..])
  {
    var items := [Star(c)] + rest;
    if InLanguage(items, s) {
      var pieces :| Cut(items, pieces, s);
      assert ItemSpells(items[0], pieces[0]);
      var k := |pieces[0]|;
      assert s[..k] == pieces[0] && s[k..] == Concat(pieces[1..]);
      forall i | 0 <= i < |rest| ensures ItemSpells(rest[i], pieces[1..][i]) { assert rest[i] == items[i + 1]; }
      assert Cut(rest, pieces[1..], s[k..]);
    }
    if k :| 0 <= k <= |s| && ItemSpells(Star(c), s[..k]) && InLanguage(rest, s[k..]) {
      var pieces :| Cut(rest, pieces, s[k..]);
      var all := [s[..k]] + pieces;
      assert all[1..] == pieces && s[..k] + s[k..] == s;
      assert Cut(items, all, s);
    }
  }

  /** The same, for the places in a text. */
  lemma AtEmpty(toEnd: bool, text: string, lo: nat)
    requires lo <= |text|
    ensures MatchesAt(Pattern([], toEnd), text, lo) <==> (toEnd ==> lo == |text|)
  {
    NoItems(text[lo..lo]);
    if toEnd ==> lo == |text| { assert Found(Pattern([], toEnd), text, lo, lo); }
    if hi: nat :| Found(Pattern([], toEnd), text, lo, hi) { NoItems(text[lo..hi]); }
  }

  lemma AtOne(c: char, rest: Pattern, text: string, lo: nat)
    requires lo <= |text|
    ensures MatchesAt(Pattern([One(c)] + rest.items, rest.toEnd), text, lo) <==>
            lo < |text| && Fits(c, text[lo]) && MatchesAt(rest, text, lo + 1)
  {
    var p := Pattern([One(c)] + rest.items, rest.toEnd);
    if hi: nat :| Found(p, text, lo, hi) {
      FirstOne(c, rest.items, text[lo..hi]);
      assert text[lo..hi][1..] == text[lo + 1..hi];
      assert Found(rest, text, lo + 1, hi);
    }
    if lo < |text| && Fits(c, text[lo]) && MatchesAt(rest, text, lo + 1) {
      var hi: nat :| Found(rest, text, lo + 1, hi);
      assert lo < hi;
      FirstOne(c, rest.items, text[lo..hi]);
      assert text[lo..hi][1..] == text[lo + 1..hi];
      assert Found(p, text, lo, hi);
    }
  }

  /** The texts that a starred character can eat from lo on, and what follows matches. */
  ghost predicate StarAt(c: char, rest: Pattern, text: string, lo: nat, k: nat) {
    lo <= k <= |text| && ItemSpells(Star(c), text[lo..k]) && MatchesAt(rest, text, k)
  }

  lemma StarEats(c: char, rest: Pattern, text: string, lo: nat, hi: nat) returns (k: nat)
    requires Found(Pattern([Star(c)] + rest.items, rest.toEnd), text, lo, hi)
    ensures StarAt(c, rest, text, lo, k)
  {
    var s := text[lo..hi];
    FirstStar(c, rest.items, s);
    hide InLanguage;
    var n :| 0 <= n <= |s| && ItemSpells(Star(c), s[..n]) && InLanguage(rest.items, s[n..]);
    assert s[..n] == text[lo..lo + n] && s[n..] == text[lo + n..hi];
    assert Found(rest, text, lo + n, hi);
    k := lo + n;
  }

  lemma StarFound(c: char, rest: Pattern, text: string, lo: nat, k: nat, hi: nat)
    requires StarAt(c, rest, text, lo, k) && Found(rest, text, k, hi)
    ensures Found(Pattern([Star(c)] + rest.items, rest.toEnd), text, lo, hi)
  {
    var s := text[lo..hi];
    FirstStar(c, rest.items, s);
    hide InLanguage;
    assert s[..k - lo] == text[lo..k] && s[k - lo..] == text[k..hi];
  }

  lemma AtStar(c: char, rest: Pattern, text: string, lo: nat)
    requires lo <= |text|
    ensures MatchesAt(Pattern([Star(c)] + rest.items, rest.toEnd), text, lo) <==> exists k: nat :: StarAt(c, rest, text, lo, k)
  {
    hide Found;
    var p := Pattern([Star(c)] + rest.items, rest.toEnd);
    if hi: nat :| Found(p, text, lo, hi) { var k := StarEats(c, rest, text, lo, hi); }
    if k: nat :| StarAt(c, rest, text, lo, k) {
      var hi: nat :| Found(rest, text, k, hi);
      StarFound(c, rest, text, lo, k, hi);
    }
  }

  // ---- the matcher; a pointer into text is a position ----

  /** match */
  method Match(re: CString, text: CString) returns (r: bool)
    ensures r <==> Matches(re, text)
  {
    if re != "" && re[0] == '^' {
      r := MatchHere(re[1..], text, 0);
      return;
    }
    var at := 0;
    while true
      invariant 0 <= at <= |text|
      invariant forall lo: nat :: lo < at ==> !MatchesAt(Parse(re), text, lo)
      decreases |text| - at
    {
      r := MatchHere(re, text, at);
      if r { return; }
      if at == |text| { break; }  // *text++ == '\0'
      at := at + 1;
    }
    assert forall lo: nat :: MatchesAt(Parse(re), text, lo) ==> lo <= |text|;
    return false;
  }

  /** What each branch of matchhere has in front of it. */
  lemma ParseCases(re: string)
    requires re != ""
    ensures if |re| > 1 && re[1] == '*' then
              Parse(re) == Pattern([Star(re[0])] + Parse(re[2..]).items, Parse(re[2..]).toEnd)
            else if re[0] == '$' && |re| == 1 then Parse(re) == Pattern([], true)
            else Parse(re) == Pattern([One(re[0])] + Parse(re[1..]).items, Parse(re[1..]).toEnd)
  {
    if |re| == 1 && re[0] == '$' { assert re == "$"; }
  }

  /** matchhere */
  method MatchHere(re: string, text: string, at: nat) returns (r: bool)
    requires at <= |text|
    ensures r <==> MatchesAt(Parse(re), text, at)
    decreases |re|, 0
  {
    if re == "" {
      AtEmpty(false, text, at);
      return true;
    }
    ParseCases(re);
    hide Parse, MatchesAt;
    if |re| > 1 && re[1] == '*' {
      AtStar(re[0], Parse(re[2..]), text, at);
      r := MatchStar(re[0], re[2..], text, at);
      return;
    }
    if re[0] == '$' && |re| == 1 {
      AtEmpty(true, text, at);
      return at == |text|;
    }
    AtOne(re[0], Parse(re[1..]), text, at);
    if at < |text| && (re[0] == '.' || re[0] == text[at]) {
      r := MatchHere(re[1..], text, at + 1);
      return;
    }
    return false;
  }

  lemma StarGoesOn(c: char, text: string, start: nat, at: nat, k: nat)
    requires start <= at < k <= |text| && ItemSpells(Star(c), text[start..k])
    ensures Fits(c, text[at])
  {
    assert text[start..k][at - start] == text[at];
  }

  /** matchstar */
  method MatchStar(c: char, re: string, text: string, start: nat) returns (r: bool)
    requires start <= |text|
    ensures r <==> exists k: nat :: StarAt(c, Parse(re), text, start, k)
    decreases |re|, 1
  {
    var at := start;
    while true
      invariant start <= at <= |text| && ItemSpells(Star(c), text[start..at])
      invariant forall k: nat :: start <= k < at ==> !MatchesAt(Parse(re), text, k)
      decreases |text| - at
    {
      r := MatchHere(re, text, at);
      if r {
        assert StarAt(c, Parse(re), text, start, at);
        return;
      }
      if at == |text| || !(text[at] == c || c == '.') { break; }
      at := at + 1;
      assert text[start..at] == text[start..at - 1] + [text[at - 1]];
    }
    forall k: nat ensures !StarAt(c, Parse(re), text, start, k) {
      if at < k <= |text| && ItemSpells(Star(c), text[start..k]) { StarGoesOn(c, text, start, at, k); }
    }
    return false;
  }

  // ---- what simple patterns match ----

  /** A word without special characters. */
  predicate Plain(w: string) { forall i :: 0 <= i < |w| ==> w[i] != '.' && w[i] != '*' && w[i] != '$' && w[i] != '^' }

  function Ones(w: string): seq<Item> { if w == "" then [] else [One(w[0])] + Ones(w[1..]) }

  lemma {:induction false} ParsePlain(w: string)
    requires Plain(w)
    ensures Parse(w) == Pattern(Ones(w), false) && Parse(w + "$") == Pattern(Ones(w), true)
  {
    if w != "" {
      ParsePlain(w[1..]);
      assert (w + "$")[1..] == w[1..] + "$" && (w + "$")[0] == w[0];
      assert |w| > 1 ==> (w + "$")[1] == w[1];
    }
  }

  lemma {:induction false} OnesSpell(w: string, s: string)
    requires Plain(w)
    ensures InLanguage(Ones(w), s) <==> s == w
  {
    hide InLanguage;
    if w == "" {
      NoItems(s);
    } else {
      FirstOne(w[0], Ones(w[1..]), s);
      if s != "" { OnesSpell(w[1..], s[1..]); }
      assert s != "" && s[0] == w[0] && s[1..] == w[1..] <==> s == w by {
        if s != "" && s[0] == w[0] && s[1..] == w[1..] { assert s == [s[0]] + s[1..] == [w[0]] + w[1..] == w; }
      }
    }
  }

  lemma OnesAt(w: string, toEnd: bool, text: string, lo: nat)
    requires Plain(w)
    ensures MatchesAt(Pattern(Ones(w), toEnd), text, lo) <==>
            lo + |w| <= |text| && text[lo..lo + |w|] == w && (toEnd ==> lo + |w| == |text|)
  {
    hide InLanguage, Ones;
    var p := Pattern(Ones(w), toEnd);
    if hi: nat :| Found(p, text, lo, hi) { OnesSpell(w, text[lo..hi]); }
    if lo + |w| <= |text| && text[lo..lo + |w|] == w && (toEnd ==> lo + |w| == |text|) {
      OnesSpell(w, text[lo..lo + |w|]);
      assert Found(p, text, lo, lo + |w|);
    }
  }

  /** The word stands in text at lo. */
  predicate Occurs(w: string, text: string, lo: nat) { lo + |w| <= |text| && text[lo..lo + |w|] == w }

  lemma Beyond(p: Pattern, text: string, lo: nat)
    ensures lo > |text| ==> !MatchesAt(p, text, lo)
  {
  }

  /** A word matches exactly the texts that contain it; after ^ those that start with it; before $ those that end with it;
      and between the two only itself. */
  lemma WordMatches(w: string, text: string)
    requires Plain(w)
    ensures Matches(w, text) <==> exists lo: nat :: Occurs(w, text, lo)
    ensures Matches("^" + w, text) <==> |w| <= |text| && text[..|w|] == w
    ensures Matches(w + "$", text) <==> |w| <= |text| && text[|text| - |w|..] == w
    ensures Matches("^" + w + "$", text) <==> text == w
  {
    hide Parse, MatchesAt, Ones;
    ParsePlain(w);
    assert ("^" + w)[1..] == w && ("^" + w + "$")[1..] == w + "$" && ("^" + w + "$")[0] == '^';
    assert w != "" ==> (w + "$")[0] == w[0];
    forall lo: nat
      ensures MatchesAt(Pattern(Ones(w), false), text, lo) <==> Occurs(w, text, lo)
      ensures MatchesAt(Pattern(Ones(w), true), text, lo) <==> Occurs(w, text, lo) && lo + |w| == |text|
    {
      OnesAt(w, false, text, lo);
      OnesAt(w, true, text, lo);
    }
    assert Occurs(w, text, 0) <==> |w| <= |text| && text[..|w|] == w;
    assert Occurs(w, text, 0) && |w| == |text| <==> text == w;
    assert |w| <= |text| ==> (Occurs(w, text, |text| - |w|) <==> text[|text| - |w|..] == w);
    if |w| <= |text| && text[|text| - |w|..] == w { assert MatchesAt(Pattern(Ones(w), true), text, |text| - |w|); }
    if lo: nat :| MatchesAt(Pattern(Ones(w), true), text, lo) { assert lo == |text| - |w|; }
  }

  /** A dot stands for any one character, and a star for any number of the character before it. */
  lemma DotAndStar(c: char, text: string)
    requires c != '.' && c != '*' && c != '$' && c != '^'
    ensures Matches(".", text) <==> text != ""
    ensures Matches("^.$", text) <==> |text| == 1
    ensures Matches("^" + [c] + "*$", text) <==> forall i :: 0 <= i < |text| ==> text[i] == c
    ensures Matches("^.*$", text)
  {
    DotAt(text);
    StarAll(c, text);
    StarAll('.', text);
    var s, d := "^" + [c] + "*$", "^" + ['.'] + "*$";
    assert s[0] == '^' && s[1..] == [c] + "*$" && d == "^.*$" && d[1..] == ['.'] + "*$";
    hide Parse, MatchesAt;
    assert "."[0] == '.' && "^.$"[0] == '^' && "^.$"[1..] == ".$";
    if text != "" { assert MatchesAt(Parse("."), text, 0); }
  }

  lemma DotAt(text: string)
    ensures forall lo: nat :: MatchesAt(Parse("."), text, lo) <==> lo < |text|
    ensures MatchesAt(Parse(".$"), text, 0) <==> |text| == 1
  {
    assert "."[1..] == "" && Parse("") == Pattern([], false);
    assert Parse(".") == Pattern([One('.')] + [], false);
    assert ".$"[1..] == "$" && Parse(".$") == Pattern([One('.')] + Parse("$").items, Parse("$").toEnd);
    assert Parse("$") == Pattern([], true);
    hide Parse, InLanguage;
    forall lo: nat ensures MatchesAt(Parse("."), text, lo) <==> lo < |text| {
      Beyond(Parse("."), text, lo);
      if lo <= |text| { AtOne('.', Pattern([], false), text, lo); }
      if lo < |text| { AtEmpty(false, text, lo + 1); }
    }
    AtOne('.', Pattern([], true), text, 0);
    if text != "" { AtEmpty(true, text, 1); }
  }

  lemma StarAll(c: char, text: string)
    ensures MatchesAt(Parse([c] + "*$"), text, 0) <==> forall i :: 0 <= i < |text| ==> Fits(c, text[i])
  {
    var re := [c] + "*$";
    assert re[0] == c && re[1] == '*' && re[2..] == "$" && Parse("$") == Pattern([], true);
    assert Parse(re) == Pattern([Star(c)] + [], true);
    hide Parse, InLanguage;
    AtStar(c, Pattern([], true), text, 0);
    forall k: nat ensures MatchesAt(Pattern([], true), text, k) <==> k == |text| {
      Beyond(Pattern([], true), text, k);
      if k <= |text| { AtEmpty(true, text, k); }
    }
    assert text[0..|text|] == text;
    if forall i :: 0 <= i < |text| ==> Fits(c, text[i]) { assert StarAt(c, Pattern([], true), text, 0, |text|); }
  }
}
