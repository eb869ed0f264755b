/** The command line as text: the tokens `gettoken` finds in it, and printed text. */
module ShellText {
  import opened ShellSyntax

  predicate White(c: char) {
    c == ' ' || c == '\t' || c == '\r' || c == '\n' || c == '\U{B}'
  }

  predicate Symbolic(c: char) {
    c == '<' || c == '|' || c == '>' || c == '&' || c == ';' || c == '(' || c == ')'
  }

  predicate Plain(c: char) {
    !White(c) && !Symbolic(c) && c != '\0'
  }

  /** A word as `gettoken` reports it: from `q` up to `eq`. */
  datatype Span = Span(q: nat, eq: nat)

  function SkipWhite(s: string, i: nat): (j: nat)
    requires i <= |s|
    ensures i <= j <= |s| && (j < |s| ==> !White(s[j])) && forall k :: i <= k < j ==> White(s[k])
    decreases |s| - i
  {
    if i < |s| && White(s[i]) then SkipWhite(s, i + 1) else i
  }

  function WordEnd(s: string, i: nat): (j: nat)
    requires i <= |s|
    ensures i <= j <= |s| && (j < |s| ==> White(s[j]) || Symbolic(s[j]))
    ensures forall k :: i <= k < j ==> !White(s[k]) && !Symbolic(s[k])
    decreases |s| - i
  {
    if i < |s| && !White(s[i]) && !Symbolic(s[i]) then WordEnd(s, i + 1) else i
  }

  /** The token that starts at `i`, and where it ends. */
  function TokenAt(s: string, i: nat): (r: (Token<Span>, nat))
    requires i < |s| && !White(s[i])
    ensures i < r.1 <= |s|
  {
    if s[i] == '>' && i + 1 < |s| && s[i + 1] == '>' then (Sym('+'), i + 2)
    else if Symbolic(s[i]) then (Sym(s[i]), i + 1)
    else (Word(Span(i, WordEnd(s, i))), WordEnd(s, i))
  }

  /** The tokens from position `i` on. */
  function Lex(s: string, i: nat): seq<Token<Span>>
    requires i <= |s|
    decreases |s| - i
  {
    var j := SkipWhite(s, i);
    if j == |s| then []
    else var (t, k) := TokenAt(s, j); [t] + Lex(s, k)
  }

  lemma LexSkips(s: string, i: nat)
    requires i <= |s|
    ensures Lex(s, SkipWhite(s, i)) == Lex(s, i)
  {
    assert SkipWhite(s, SkipWhite(s, i)) == SkipWhite(s, i);
  }

  // ----- Text of spans -----

  function TextOf(s: string, w: Span): string {
    if w.q <= w.eq <= |s| then s[w.q..w.eq] else ""
  }

  ghost function Texts(s: string): Span -> string {
    (w: Span) => TextOf(s, w)
  }

  // ----- Printed text -----

  function Show(t: Token<string>): string {
    match t case Sym(c) => if c == '+' then ">>" else [c] case Word(w) => w
  }

  /** Every token is followed by a blank. */
  function Join(ts: seq<Token<string>>): string {
    if ts == [] then "" else Show(ts[0]) + " " + Join(ts[1..])
  }

  predicate ValidWord(w: string) {
    w != "" && forall k :: 0 <= k < |w| ==> Plain(w[k])
  }

  predicate ValidToken(t: Token<string>) {
    match t case Sym(c) => Symbolic(c) || c == '+' case Word(w) => ValidWord(w)
  }

  // ----- Spacing -----

  predicate AllWhite(s: string) {
    forall k :: 0 <= k < |s| ==> White(s[k])
  }

  /** The two tokens may stand side by side: not two words, and not '>' before '>' or ">>". */
  predicate Separable(t: Token<string>, u: Token<string>) {
    !(t.Word? && u.Word?) && !(t == Sym('>') && (u == Sym('>') || u == Sym('+')))
  }

  /** The tokens with the gaps before, between and behind them. */
  function Spell(gaps: seq<string>, ts: seq<Token<string>>): string
    requires |gaps| == |ts| + 1
  {
    if ts == [] then gaps[0] else gaps[0] + Show(ts[0]) + Spell(gaps[1..], ts[1..])
  }

  /** Gaps are blank, and there is one wherever it is needed. */
  ghost predicate Spaced(gaps: seq<string>, ts: seq<Token<string>>)
    requires |gaps| == |ts| + 1
  {
    && (forall i :: 0 <= i < |gaps| ==> AllWhite(gaps[i]))
    && (forall i, j :: 0 <= i && j == i + 1 < |ts| ==> gaps[j] != "" || Separable(ts[i], ts[j]))
  }

  ghost predicate Spelled(s: string, gaps: seq<string>, ts: seq<Token<string>>) {
    |gaps| == |ts| + 1 && Spaced(gaps, ts) && s == Spell(gaps, ts)
  }

  /** The text behind a token does not run into it. */
  predicate Stops(t: Token<string>, rest: string) {
    && (t.Word? ==> rest == "" || White(rest[0]) || Symbolic(rest[0]))
    && (t == Sym('>') ==> rest == "" || rest[0] != '>')
  }

  lemma {:induction false} WordEndIs(s: string, i: nat, e: nat)
    requires i <= e <= |s| && (e < |s| ==> White(s[e]) || Symbolic(s[e])) && forall k :: i <= k < e ==> Plain(s[k])
    ensures WordEnd(s, i) == e
    decreases e - i
  {
    if i < e {
      WordEndIs(s, i + 1, e);
    }
  }

  /** The token shown at the end of `pre` is the one found there. */
  lemma ShownToken(s: string, pre: string, t: Token<string>, rest: string)
    requires ValidToken(t) && Stops(t, rest) && s == pre + Show(t) + rest
    ensures |pre| < |s| && !White(s[|pre|])
    ensures var (u, k) := TokenAt(s, |pre|); k == |pre| + |Show(t)| && MapToken(Texts(s), u) == t
  {
    var e := |pre| + |Show(t)|;
    assert s[|pre|..e] == Show(t);
    assert forall k :: |pre| <= k < e ==> s[k] == Show(t)[k - |pre|];
    assert e < |s| ==> s[e] == rest[0];
    if t.Word? {
      WordEndIs(s, |pre|, e);
    }
  }

  /** The token found at a place is shown by the text it spans, and what follows does not run into it. */
  lemma TokenShows(s: string, i: nat)
    requires '\0' !in s && i < |s| && !White(s[i])
    ensures var (u, k) := TokenAt(s, i); var t := MapToken(Texts(s), u);
            ValidToken(t) && Show(t) == s[i..k] && Stops(t, s[k..])
  {
    var e := WordEnd(s, i);
    assert forall k :: i <= k < e ==> s[k] in s;
  }

  lemma {:induction false} LexGap(s: string, i: nat, j: nat)
    requires i <= j <= |s| && forall k :: i <= k < j ==> White(s[k])
    ensures Lex(s, i) == Lex(s, j)
    decreases j - i
  {
    if i < j {
      LexBlank(s, i);
      LexGap(s, i + 1, j);
    }
  }

  lemma LexStep(s: string, i: nat)
    requires i < |s| && !White(s[i])
    ensures Lex(s, i) == [TokenAt(s, i).0] + Lex(s, TokenAt(s, i).1)
  {
    assert SkipWhite(s, i) == i;
  }

  lemma LexBlank(s: string, i: nat)
    requires i < |s| && White(s[i])
    ensures Lex(s, i) == Lex(s, i + 1)
  {
    assert SkipWhite(s, i) == SkipWhite(s, i + 1);
  }

  lemma MapCons<V, W>(f: V -> W, t: Token<V>, ts: seq<Token<V>>)
    ensures MapTokens(f, [t] + ts) == [MapToken(f, t)] + MapTokens(f, ts)
  {
  }

  /** What follows the first token does not run into it. */
  lemma SpacedStops(gaps: seq<string>, ts: seq<Token<string>>)
    requires |gaps| == |ts| + 1 && ts != [] && Spaced(gaps, ts) && AllValid(ts)
    ensures Stops(ts[0], Spell(gaps[1..], ts[1..]))
  {
    var rest := Spell(gaps[1..], ts[1..]);
    assert gaps[1..][0] == gaps[1];
    if gaps[1] != "" {
      assert rest[0] == gaps[1][0];
    } else if |ts| > 1 {
      assert ts[1..][0] == ts[1] && ValidToken(ts[1]) && Separable(ts[0], ts[1]);
      assert rest[0] == Show(ts[1])[0];
    }
  }

  lemma SpacedTail(gaps: seq<string>, ts: seq<Token<string>>)
    requires |gaps| == |ts| + 1 && ts != [] && Spaced(gaps, ts) && AllValid(ts)
    ensures Spaced(gaps[1..], ts[1..]) && AllValid(ts[1..]) && AllWhite(gaps[0])
  {
  }

  /** Tokens written down with any spacing that keeps them apart are found again. */
  lemma {:induction false} LexSpelled(s: string, pre: string, gaps: seq<string>, ts: seq<Token<string>>)
    requires |gaps| == |ts| + 1 && Spaced(gaps, ts) && AllValid(ts) && s == pre + Spell(gaps, ts)
    ensures MapTokens(Texts(s), Lex(s, |pre|)) == ts
    decreases |ts|
  {
    hide Lex, TokenAt, SkipWhite, Spaced, AllValid;
    var at := pre + gaps[0];
    if ts == [] {
      WhiteGap(gaps);
      assert s == at;
      LexGap(s, |pre|, |s|);
      LexEnd(s);
    } else {
      var t, rest := ts[0], Spell(gaps[1..], ts[1..]);
      SpacedTail(gaps, ts);
      SpacedStops(gaps, ts);
      assert ValidToken(t) by { FirstValid(ts); }
      assert s == at + Show(t) + rest && s == (at + Show(t)) + rest;
      assert forall k :: |pre| <= k < |at| ==> s[k] == gaps[0][k - |pre|];
      LexGap(s, |pre|, |at|);
      hide Show, Spell, White;
      ShownToken(s, at, t, rest);
      LexStep(s, |at|);
      LexSpelled(s, at + Show(t), gaps[1..], ts[1..]);
      MapCons(Texts(s), TokenAt(s, |at|).0, Lex(s, |at + Show(t)|));
    }
  }

  lemma FirstValid(ts: seq<Token<string>>)
    requires AllValid(ts) && ts != []
    ensures ValidToken(ts[0])
  {
  }

  lemma WhiteGap(gaps: seq<string>)
    requires |gaps| == 1 && Spaced(gaps, [])
    ensures AllWhite(gaps[0])
  {
  }

  lemma LexEnd(s: string)
    ensures Lex(s, |s|) == []
  {
  }

  /** Every line is spelled by the tokens found in it: they cover every character that is not blank, in order. */
  lemma {:induction false} LexSpells(s: string, i: nat) returns (gaps: seq<string>)
    requires '\0' !in s && i <= |s|
    ensures var ts := MapTokens(Texts(s), Lex(s, i)); AllValid(ts) && Spelled(s[i..], gaps, ts)
    decreases |s| - i
  {
    hide SkipWhite, TokenAt, Show, ValidToken, Lex, MapTokens, Spelled, AllValid, Stops;
    LexAt(s, i);
    var j := SkipWhite(s, i);
    if j == |s| {
      gaps := [s[i..]];
      OnlyGap(s, i);
    } else {
      var (u, k) := TokenAt(s, j);
      var more := LexSpells(s, k);
      var t, ts := MapToken(Texts(s), u), MapTokens(Texts(s), Lex(s, k));
      MapCons(Texts(s), u, Lex(s, k));
      TokenShows(s, j);
      gaps := [s[i..j]] + more;
      assert s[i..] == s[i..j] + s[j..k] + s[k..];
      SpelledCons(s[i..j], t, s[k..], more, ts);
    }
  }

  lemma OnlyGap(s: string, i: nat)
    requires i <= |s| && forall k :: i <= k < |s| ==> White(s[k])
    ensures var ts := MapTokens(Texts(s), []); AllValid(ts) && Spelled(s[i..], [s[i..]], ts)
  {
  }

  lemma LexAt(s: string, i: nat)
    requires i <= |s|
    ensures var j := SkipWhite(s, i);
            Lex(s, i) == if j == |s| then [] else [TokenAt(s, j).0] + Lex(s, TokenAt(s, j).1)
  {
  }

  lemma SpelledCons(gap: string, t: Token<string>, rest: string, gaps: seq<string>, ts: seq<Token<string>>)
    requires AllWhite(gap) && ValidToken(t) && Stops(t, rest) && AllValid(ts) && Spelled(rest, gaps, ts)
    ensures Spelled(gap + Show(t) + rest, [gap] + gaps, [t] + ts) && AllValid([t] + ts)
  {
    var gaps', ts' := [gap] + gaps, [t] + ts;
    assert gaps'[1..] == gaps && ts'[1..] == ts;
    if ts != [] && gaps[0] == "" {
      assert ValidToken(ts[0]) && rest == gaps[0] + Show(ts[0]) + Spell(gaps[1..], ts[1..]);
      assert rest[0] == Show(ts[0])[0];
    }
    forall i, j | 0 <= i && j == i + 1 < |ts'| ensures gaps'[j] != "" || Separable(ts'[i], ts'[j]) {
      if i > 0 {
        assert gaps[j - 1] != "" || Separable(ts[i - 1], ts[j - 1]);
      }
    }
  }

  /** `gettoken` finds tokens `ts` in a line exactly when the line is a spacing of them. */
  lemma LexExactly(s: string, ts: seq<Token<string>>)
    requires '\0' !in s
    ensures MapTokens(Texts(s), Lex(s, 0)) == ts <==> AllValid(ts) && exists gaps :: Spelled(s, gaps, ts)
  {
    hide Lex, AllValid, Spaced;
    var found := LexSpells(s, 0);
    assert s[0..] == s;
    if AllValid(ts) && exists gaps :: Spelled(s, gaps, ts) {
      var gaps :| Spelled(s, gaps, ts);
      assert s == "" + Spell(gaps, ts);
      LexSpelled(s, "", gaps, ts);
    }
  }

  function JoinGaps(n: nat): seq<string> {
    seq(n + 1, i => if i == 0 then "" else " ")
  }

  lemma {:induction false} JoinSpelt(gap: string, ts: seq<Token<string>>)
    ensures gap + Join(ts) == Spell([gap] + JoinGaps(|ts|)[1..], ts)
    decreases |ts|
  {
    if ts != [] {
      var gaps := [gap] + JoinGaps(|ts|)[1..];
      JoinSpelt(" ", ts[1..]);
      assert gaps[1..] == [" "] + JoinGaps(|ts| - 1)[1..];
    }
  }

  /** Lexing undoes joining. */
  lemma LexJoined(ts: seq<Token<string>>)
    requires AllValid(ts)
    ensures MapTokens(Texts(Join(ts)), Lex(Join(ts), 0)) == ts
  {
    hide Lex;
    var s, gaps := Join(ts), JoinGaps(|ts|);
    JoinSpelt("", ts);
    assert gaps == [""] + gaps[1..] && s == "" + s;
    LexSpelled(s, "", gaps, ts);
  }

  // ----- Round trip -----

  /** Every word of the tree satisfies `ok`. */
  ghost predicate AllWords<W(!new)>(c: Cmd<W>, ok: W -> bool) {
    match c
    case Exec(args) => forall k :: 0 <= k < |args| ==> ok(args[k])
    case Redir(d, file, _) => AllWords(d, ok) && ok(file)
    case Pipe(l, r) => AllWords(l, ok) && AllWords(r, ok)
    case List(l, r) => AllWords(l, ok) && AllWords(r, ok)
    case Back(d) => AllWords(d, ok)
  }

  ghost predicate AllValid(ts: seq<Token<string>>) {
    forall k :: 0 <= k < |ts| ==> ValidToken(ts[k])
  }

  lemma {:induction false} WordsValid(args: seq<string>)
    requires forall k :: 0 <= k < |args| ==> ValidWord(args[k])
    ensures AllValid(Words(args))
  {
    if args != [] {
      WordsValid(args[1..]);
    }
  }

  lemma {:induction false} PrintedValid(c: Cmd<string>)
    requires AllWords(c, ValidWord)
    ensures AllValid(PrintExec(c)) && AllValid(PrintPipe(c)) && AllValid(PrintBack(c)) && AllValid(PrintLine(c))
    decreases c
  {
    match c
    case Exec(args) => WordsValid(args);
    case Redir(d, _, _) => PrintedValid(d);
    case Pipe(l, r) =>
      PrintedValid(l);
      PrintedValid(r);
      assert AllValid(PrintPipe(c));
      assert PrintBack(c) == PrintPipe(c) == PrintLine(c);
    case List(l, r) =>
      PrintedValid(l);
      PrintedValid(r);
      assert AllValid(PrintLine(c)) && AllValid(PrintExec(c));
      assert PrintBack(c) == PrintPipe(c) == PrintExec(c);
    case Back(d) =>
      PrintedValid(d);
      assert AllValid(PrintBack(c)) && PrintLine(c) == PrintBack(c);
      assert AllValid(PrintExec(c)) && PrintPipe(c) == PrintExec(c);
  }

  /** The tree of strings that `parsecmd` builds from a command line. */
  ghost function ParseText(s: string): Parsed<string> {
    MapParsed(Texts(s), ParseCmd(Lex(s, 0)))
  }

  lemma TextParses(s: string)
    ensures ParseText(s) == ParseCmd(MapTokens(Texts(s), Lex(s, 0)))
  {
    LineMap(Texts(s), Lex(s, 0));
  }

  /** For every command tree with valid words and at most nine arguments a command, parsing the printed line
      yields the same tree, whatever spacing keeps its tokens apart. */
  lemma ParseTextUndoesPrint(c: Cmd<string>, s: string, gaps: seq<string>)
    requires Fits(c) && AllWords(c, ValidWord) && (s == Join(PrintLine(c)) || Spelled(s, gaps, PrintLine(c)))
    ensures ParseText(s) == Ok(c, [])
  {
    hide Lex;
    var ts := PrintLine(c);
    PrintedValid(c);
    if s == Join(ts) {
      LexJoined(ts);
    } else {
      assert s == "" + s;
      LexSpelled(s, "", gaps, ts);
    }
    ParseUndoesPrint(c);
    TextParses(s);
  }
}
