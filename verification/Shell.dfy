/** The recursive-descent parser of user/sh.c on its buffer: the functions that advance the cursor, and
    `nulterminate`, which cuts the words out of the line. */
module Shell {
  import opened Syntax = ShellSyntax
  import opened ShellText

  datatype Outcome = Panic | Done(cmd: Cmd<Span>)

  /** The method did what the grammar says: same tree, and the cursor before the same tokens. */
  ghost predicate Agrees(p: Parsed<Span>, out: Outcome, left: seq<Token<Span>>) {
    match p case Fail => out == Panic case Ok(c, rest) => out == Done(c) && left == rest
  }

  /** `peek` looks at one character; the token there says the same. */
  lemma PeekLooks(s: string, i: nat, toks: string, cs: set<char>)
    requires i <= |s| && (i < |s| ==> !White(s[i])) && '+' !in toks
    requires forall c :: c in toks ==> Symbolic(c)
    requires cs == (set c | c in toks) + (if '>' in toks then {'+'} else {})
    ensures (i < |s| && s[i] in toks) <==> Looks(Lex(s, i), cs)
  {
    if i < |s| {
      LexStep(s, i);
    }
  }

  /** What `gettoken` reports, on the characters of the line: blanks up to `q`, the token's own text up to `eq` and
      no further than the token goes, blanks again up to `ps`. At the end of the line it reports 0. */
  ghost predicate Cut(s: string, from: nat, ret: char, q: nat, eq: nat, ps: nat) {
    && from <= q <= eq <= ps <= |s| && AllWhite(s[from..q]) && AllWhite(s[eq..ps]) && (ps < |s| ==> !White(s[ps]))
    && (ret == '\0' <==> q == |s|)
    && (q < |s| ==>
          var t := if ret == 'a' then Word(s[q..eq]) else Sym(ret);
          ValidToken(t) && s[q..eq] == Show(t) && Stops(t, s[eq..]))
  }

  class Parser {
    const buf: array<char>
    const es: nat
    const line: string
    var ps: nat

    /** The line is a C string at the start of the buffer. */
    ghost predicate Valid()
      reads this, buf
    {
      && es < buf.Length && buf[..es] == line && buf[es] == '\0' && '\0' !in line && ps <= es
    }

    ghost function Toks(): seq<Token<Span>>
      requires ps <= |line|
      reads this
    {
      Lex(line, ps)
    }

    constructor (s: string)
      requires '\0' !in s
      ensures Valid() && line == s && ps == 0 && fresh(buf)
    {
      line, es, ps := s, |s|, 0;
      var b := new char[|s| + 1](i => if 0 <= i < |s| then s[i] else '\0');
      buf := b;
      new;
      assert buf[..es] == line;
    }

    method Skip(i: nat) returns (j: nat)
      requires Valid() && i <= es
      ensures j == SkipWhite(line, i)
    {
      j := i;
      while j < es && White(buf[j])
        invariant i <= j <= es && SkipWhite(line, j) == SkipWhite(line, i)
      {
        assert buf[j] == line[j];
        j := j + 1;
      }
      assert j < es ==> buf[j] == line[j];
    }

    /** `gettoken`: 0 at the end of the line, 'a' for a word. */
    method GetToken() returns (ret: char, q: nat, eq: nat)
      requires Valid()
      modifies `ps
      ensures Valid() && old(ps) <= ps
      ensures if old(Toks()) == [] then ret == '\0' && Toks() == []
              else
                && ret != '\0' && old(ps) < ps
                && old(Toks()) == [if ret == 'a' then Word(Span(q, eq)) else Sym(ret)] + Toks()
      ensures Cut(line, old(ps), ret, q, eq, ps)
    {
      hide Lex, TokenAt, SkipWhite, Show, ValidToken, Stops;
      LexAt(line, ps);
      LexSkips(line, ps);
      q := Skip(ps);
      ret, eq := '\0', q;
      if q < es {
        assert buf[q] == line[q];
        ret, eq := ScanToken(q);
        TokenShows(line, q);
      }
      LexSkips(line, eq);
      ps := Skip(eq);
    }

    /** The switch of `gettoken`, at a character that is not blank. */
    method ScanToken(i: nat) returns (ret: char, e: nat)
      requires Valid() && i < es && !White(line[i])
      ensures ret != '\0' && TokenAt(line, i) == (if ret == 'a' then Word(Span(i, e)) else Sym(ret), e)
    {
      assert buf[i] == line[i];
      ret, e := buf[i], i;
      if ret == '>' {
        e := e + 1;
        assert e < es ==> buf[e] == line[e];
        if buf[e] == '>' {
          ret := '+';
          e := e + 1;
        }
      } else if Symbolic(ret) {
        e := e + 1;
      } else {
        ret := 'a';
        e := SkipWord(i);
      }
    }

    method SkipWord(i: nat) returns (j: nat)
      requires Valid() && i <= es
      ensures j == WordEnd(line, i)
    {
      j := i;
      while j < es && !White(buf[j]) && !Symbolic(buf[j])
        invariant i <= j <= es && WordEnd(line, j) == WordEnd(line, i)
      {
        assert buf[j] == line[j];
        j := j + 1;
      }
      assert j < es ==> buf[j] == line[j];
    }

    /** `peek`. */
    method Peek(toks: string) returns (b: bool)
      requires Valid() && '\0' !in toks
      modifies `ps
      ensures Valid() && old(ps) <= ps && Toks() == old(Toks())
      ensures (ps < es ==> !White(line[ps])) && b == (ps < es && line[ps] in toks)
    {
      LexSkips(line, ps);
      ps := Skip(ps);
      assert ps < es ==> buf[ps] == line[ps];
      b := buf[ps] != '\0' && buf[ps] in toks;
    }

    /** `peek` for grammar symbols, on tokens. */
    method PeekFor(toks: string, ghost cs: set<char>) returns (b: bool)
      requires Valid() && '+' !in toks && (forall c :: c in toks ==> Symbolic(c))
      requires cs == (set c | c in toks) + (if '>' in toks then {'+'} else {})
      modifies `ps
      ensures Valid() && old(ps) <= ps && Toks() == old(Toks()) && b == Looks(Toks(), cs)
    {
      b := Peek(toks);
      PeekLooks(line, ps, toks, cs);
    }

    /** `parseredirs`. */
    method ParseRedirs(r0: seq<(Span, Mode)>) returns (ok: bool, redirs: seq<(Span, Mode)>)
      requires Valid()
      modifies `ps
      ensures Valid() && old(ps) <= ps
      ensures match Redirs(r0, old(Toks()))
              case NoFile => !ok
              case Onto(rs, rest) => ok && redirs == rs && Toks() == rest
    {
      hide Lex, Cut;
      redirs := r0;
      var more := PeekFor("<>", {'<', '>', '+'});
      while more
        invariant Valid() && old(ps) <= ps && Redirs(redirs, Toks()) == Redirs(r0, old(Toks()))
        invariant more == Looks(Toks(), {'<', '>', '+'})
        decreases es - ps
      {
        ghost var ts := Toks();
        var tok, _, _ := GetToken();
        ghost var mid := Toks();
        var ret, q, eq := GetToken();
        if ret != 'a' {
          return false, redirs;
        }
        assert ts == [Sym(tok)] + mid && mid == [Word(Span(q, eq))] + Toks();
        assert ts[2..] == Toks();
        redirs := redirs + [(Span(q, eq), ModeOf(tok))];
        more := PeekFor("<>", {'<', '>', '+'});
      }
      ok := true;
    }

    /** The argument loop of `parseexec`. */
    method ParseArgs(r0: seq<(Span, Mode)>) returns (out: Outcome)
      requires Valid()
      modifies `ps
      ensures Valid() && old(ps) <= ps && Agrees(Args([], r0, old(Toks())), out, Toks())
    {
      hide Lex, Redirs, Cut;
      var redirs := r0;
      var argv, argc := new Span[MAXARGS](_ => Span(0, 0)), 0;
      assert argv[..argc] == [];
      var stop := PeekFor("|)&;", {'|', ')', '&', ';'});
      while !stop
        invariant Valid() && old(ps) <= ps && argc < MAXARGS && stop == Looks(Toks(), {'|', ')', '&', ';'})
        invariant Args(argv[..argc], redirs, Toks()) == Args([], r0, old(Toks()))
        decreases es - ps
      {
        ghost var ts, args := Toks(), argv[..argc];
        var tok, q, eq := GetToken();
        if tok == '\0' {
          break;
        }
        if tok != 'a' {
          return Panic;
        }
        assert ts[1..] == Toks();
        argv[argc] := Span(q, eq);
        argc := argc + 1;
        if argc >= MAXARGS {
          return Panic;
        }
        assert argv[..argc] == args + [ts[0].w];
        var ok;
        ok, redirs := ParseRedirs(redirs);
        if !ok {
          return Panic;
        }
        stop := PeekFor("|)&;", {'|', ')', '&', ';'});
      }
      out := Done(Wrap(Exec(argv[..argc]), redirs));
    }

    /** `parseexec`. */
    method ParseExec() returns (out: Outcome)
      requires Valid()
      modifies `ps
      ensures Valid() && old(ps) <= ps && Agrees(Syntax.ParseExec(old(Toks())), out, Toks())
      decreases es - ps, 1
    {
      hide Lex, Cut, Redirs, Args, Syntax.ParseLine;
      var block := PeekFor("(", {'('});
      if block {
        out := ParseBlock();
        return;
      }
      var ok, redirs := ParseRedirs([]);
      if !ok {
        return Panic;
      }
      out := ParseArgs(redirs);
    }

    /** `parseblock`. */
    method ParseBlock() returns (out: Outcome)
      requires Valid() && Looks(Toks(), {'('})
      modifies `ps
      ensures Valid() && old(ps) <= ps && Agrees(Syntax.ParseExec(old(Toks())), out, Toks())
      decreases es - ps, 0
    {
      hide Lex, Cut, Redirs, Args, Syntax.ParseLine;
      ghost var ts := Toks();
      var _, _, _ := GetToken();
      assert ts[1..] == Toks();
      out := ParseLine();
      if out == Panic {
        return;
      }
      var close := PeekFor(")", {')'});
      if !close {
        return Panic;
      }
      ghost var rest := Toks();
      var _, _, _ := GetToken();
      assert rest[1..] == Toks();
      var ok, redirs := ParseRedirs([]);
      if !ok {
        return Panic;
      }
      out := Done(Wrap(out.cmd, redirs));
    }

    /** `parsepipe`. */
    method ParsePipe() returns (out: Outcome)
      requires Valid()
      modifies `ps
      ensures Valid() && old(ps) <= ps && Agrees(Syntax.ParsePipe(old(Toks())), out, Toks())
      decreases es - ps, 2
    {
      hide Lex, Cut, Syntax.ParseExec, Syntax.ParseLine;
      out := ParseExec();
      if out == Panic {
        return;
      }
      var bar := PeekFor("|", {'|'});
      if bar {
        ghost var rest := Toks();
        var _, _, _ := GetToken();
        assert rest[1..] == Toks();
        var right := ParsePipe();
        if right == Panic {
          return Panic;
        }
        out := Done(Pipe(out.cmd, right.cmd));
      }
    }

    /** `parseline`. */
    method ParseLine() returns (out: Outcome)
      requires Valid()
      modifies `ps
      ensures Valid() && old(ps) <= ps && Agrees(Syntax.ParseLine(old(Toks())), out, Toks())
      decreases es - ps, 3
    {
      hide Lex, Cut, Syntax.ParseExec, Syntax.ParsePipe;
      out := ParsePipe();
      if out == Panic {
        return;
      }
      ghost var p := Syntax.ParsePipe(old(Toks()));
      var amp := PeekFor("&", {'&'});
      while amp
        invariant Valid() && old(ps) <= ps && out.Done? && Backs(out.cmd, Toks()) == Backs(p.cmd, p.rest)
        invariant amp == Looks(Toks(), {'&'})
        decreases es - ps
      {
        ghost var ts := Toks();
        var _, _, _ := GetToken();
        assert ts[1..] == Toks();
        out := Done(Back(out.cmd));
        amp := PeekFor("&", {'&'});
      }
      var semi := PeekFor(";", {';'});
      if semi {
        ghost var rest := Toks();
        var _, _, _ := GetToken();
        assert rest[1..] == Toks();
        var right := ParseLine();
        if right == Panic {
          return Panic;
        }
        out := Done(List(out.cmd, right.cmd));
      }
    }

    /** `nulterminate`: a NUL at the end of every word of the tree, and nothing else. */
    method NulTerminate(c: Cmd<Span>)
      requires AllWords(c, WordIn(line)) && |line| < buf.Length
      modifies buf
      ensures forall k :: 0 <= k < buf.Length ==> buf[k] == if Ends(c, k) then '\0' else old(buf[k])
    {
      match c
      case Exec(args) =>
        for i := 0 to |args|
          invariant forall k :: 0 <= k < buf.Length ==> buf[k] == if Ends(Exec(args[..i]), k) then '\0' else old(buf[k])
        {
          assert args[..i + 1] == args[..i] + [args[i]];
          buf[args[i].eq] := '\0';
        }
        assert args[..|args|] == args;
      case Redir(d, file, _) =>
        NulTerminate(d);
        buf[file.eq] := '\0';
      case Pipe(l, r) =>
        NulTerminate(l);
        NulTerminate(r);
      case List(l, r) =>
        NulTerminate(l);
        NulTerminate(r);
      case Back(d) =>
        NulTerminate(d);
    }

    /** `parsecmd`: on every line it ends, builds the tree of the grammar or panics, and then each word of the tree,
        read from the buffer as a C string, is the token it was cut from. */
    method ParseCmd() returns (out: Outcome)
      requires Valid() && ps == 0
      modifies `ps, buf
      ensures match Syntax.ParseCmd(Lex(line, 0)) case Fail => out == Panic case Ok(c, _) => out == Done(c)
      ensures out.Done? ==> MapCmd(CStrings(buf[..]), out.cmd) == MapCmd(Texts(line), out.cmd)
    {
      out := ParseLine();
      if out == Panic {
        return;
      }
      ghost var p := Syntax.ParseLine(Lex(line, 0));
      var _ := Peek("");
      LexAt(line, ps);
      if ps != es {
        return Panic;
      }
      LexWords(line, 0);
      ParsedWords(Lex(line, 0), WordIn(line));
      NulTerminate(out.cmd);
      WordsWhole(line, buf[..], out.cmd, out.cmd);
    }
  }

  // ----- Words stay whole -----

  /** Position `k` ends a word of the tree. */
  predicate Ends(c: Cmd<Span>, k: nat) {
    match c
    case Exec(args) => exists i :: 0 <= i < |args| && args[i].eq == k
    case Redir(d, file, _) => Ends(d, k) || file.eq == k
    case Pipe(l, r) => Ends(l, k) || Ends(r, k)
    case List(l, r) => Ends(l, k) || Ends(r, k)
    case Back(d) => Ends(d, k)
  }

  /** The C string at position `q`. */
  function CString(b: string, q: nat): string
    decreases |b| - q
  {
    if q >= |b| || b[q] == '\0' then "" else [b[q]] + CString(b, q + 1)
  }

  ghost function CStrings(b: string): Span -> string {
    (w: Span) => CString(b, w.q)
  }

  /** A span of plain characters, up to one that is not. */
  ghost predicate IsWord(s: string, w: Span) {
    && w.q <= w.eq <= |s| && (w.eq < |s| ==> White(s[w.eq]) || Symbolic(s[w.eq]))
    && forall k :: w.q <= k < w.eq ==> !White(s[k]) && !Symbolic(s[k])
  }

  ghost function WordIn(s: string): Span -> bool {
    (w: Span) => IsWord(s, w)
  }

  ghost predicate AllTokens<W(!new)>(ts: seq<Token<W>>, ok: W -> bool) {
    forall k :: 0 <= k < |ts| && ts[k].Word? ==> ok(ts[k].w)
  }

  lemma {:induction false} LexWords(s: string, i: nat)
    requires i <= |s|
    ensures AllTokens(Lex(s, i), WordIn(s))
    decreases |s| - i
  {
    var j := SkipWhite(s, i);
    if j < |s| {
      LexWords(s, TokenAt(s, j).1);
    }
  }

  ghost predicate AllFiles<W(!new)>(rs: seq<(W, Mode)>, ok: W -> bool) {
    forall k :: 0 <= k < |rs| ==> ok(rs[k].0)
  }

  lemma {:induction false} RedirWords<W(!new)>(rs: seq<(W, Mode)>, ts: seq<Token<W>>, ok: W -> bool)
    requires AllTokens(ts, ok) && AllFiles(rs, ok)
    ensures var r := Redirs(rs, ts); r.Onto? ==> AllFiles(r.redirs, ok) && AllTokens(r.rest, ok)
    decreases |ts|
  {
    if Looks(ts, {'<', '>', '+'}) && |ts| >= 2 && ts[1].Word? {
      RedirWords(rs + [(ts[1].w, ModeOf(ts[0].c))], ts[2..], ok);
    }
  }

  lemma {:induction false} WrapWords<W(!new)>(c: Cmd<W>, rs: seq<(W, Mode)>, ok: W -> bool)
    requires AllWords(c, ok) && AllFiles(rs, ok)
    ensures AllWords(Wrap(c, rs), ok)
    decreases |rs|
  {
    if rs != [] {
      WrapWords(c, rs[..|rs| - 1], ok);
    }
  }

  lemma {:induction false} ArgWords<W(!new)>(args: seq<W>, rs: seq<(W, Mode)>, ts: seq<Token<W>>, ok: W -> bool)
    requires AllTokens(ts, ok) && AllFiles(rs, ok) && AllWords(Exec(args), ok)
    ensures var p := Args(args, rs, ts); p.Ok? ==> AllWords(p.cmd, ok) && AllTokens(p.rest, ok)
    decreases |ts|
  {
    WrapWords(Exec(args), rs, ok);
    if ts != [] && ts[0].Word? {
      RedirWords(rs, ts[1..], ok);
      var r := Redirs(rs, ts[1..]);
      if r.Onto? {
        ArgWords(args + [ts[0].w], r.redirs, r.rest, ok);
      }
    }
  }

  lemma {:induction false} ExecWords<W(!new)>(ts: seq<Token<W>>, ok: W -> bool)
    requires AllTokens(ts, ok)
    ensures var p := ParseExec(ts); p.Ok? ==> AllWords(p.cmd, ok) && AllTokens(p.rest, ok)
    decreases |ts|, 0
  {
    hide ParseLine, Redirs, Args, Wrap;
    if Looks(ts, {'('}) {
      ParsedWords(ts[1..], ok);
      var p := ParseLine(ts[1..]);
      if p.Ok? && Looks(p.rest, {')'}) {
        RedirWords([], p.rest[1..], ok);
        var r := Redirs([], p.rest[1..]);
        if r.Onto? {
          WrapWords(p.cmd, r.redirs, ok);
        }
      }
    } else {
      RedirWords([], ts, ok);
      var r := Redirs([], ts);
      if r.Onto? {
        ArgWords([], r.redirs, r.rest, ok);
      }
    }
  }

  lemma {:induction false} PipeWords<W(!new)>(ts: seq<Token<W>>, ok: W -> bool)
    requires AllTokens(ts, ok)
    ensures var p := ParsePipe(ts); p.Ok? ==> AllWords(p.cmd, ok) && AllTokens(p.rest, ok)
    decreases |ts|, 1
  {
    hide ParseExec;
    ExecWords(ts, ok);
    var p := ParseExec(ts);
    if p.Ok? && Looks(p.rest, {'|'}) {
      PipeWords(p.rest[1..], ok);
    }
  }

  lemma {:induction false} BackWords<W(!new)>(c: Cmd<W>, ts: seq<Token<W>>, ok: W -> bool)
    requires AllWords(c, ok) && AllTokens(ts, ok)
    ensures var (d, rest) := Backs(c, ts); AllWords(d, ok) && AllTokens(rest, ok)
    decreases |ts|
  {
    if Looks(ts, {'&'}) {
      BackWords(Back(c), ts[1..], ok);
    }
  }

  /** The words of the tree are words of the line. */
  lemma {:induction false} ParsedWords<W(!new)>(ts: seq<Token<W>>, ok: W -> bool)
    requires AllTokens(ts, ok)
    ensures var p := ParseLine(ts); p.Ok? ==> AllWords(p.cmd, ok) && AllTokens(p.rest, ok)
    decreases |ts|, 2
  {
    hide ParsePipe;
    PipeWords(ts, ok);
    var p := ParsePipe(ts);
    if p.Ok? {
      BackWords(p.cmd, p.rest, ok);
      var (c, rest) := Backs(p.cmd, p.rest);
      if Looks(rest, {';'}) {
        ParsedWords(rest[1..], ok);
      }
    }
  }

  /** A word never ends inside a word. */
  lemma {:induction false} EndsAreBreaks(s: string, c: Cmd<Span>, k: nat)
    requires AllWords(c, WordIn(s)) && Ends(c, k)
    ensures k <= |s| && (k < |s| ==> White(s[k]) || Symbolic(s[k]))
    decreases c
  {
    match c
    case Exec(args) =>
      var i :| 0 <= i < |args| && args[i].eq == k;
      assert WordIn(s)(args[i]);
    case Redir(d, file, _) =>
      assert WordIn(s)(file);
      if Ends(d, k) {
        EndsAreBreaks(s, d, k);
      }
    case Pipe(l, r) => if Ends(l, k) { EndsAreBreaks(s, l, k); } else { EndsAreBreaks(s, r, k); }
    case List(l, r) => if Ends(l, k) { EndsAreBreaks(s, l, k); } else { EndsAreBreaks(s, r, k); }
    case Back(d) => EndsAreBreaks(s, d, k);
  }

  lemma {:induction false} CStringIs(b: string, q: nat, e: nat)
    requires q <= e < |b| && b[e] == '\0' && forall k :: q <= k < e ==> b[k] != '\0'
    ensures CString(b, q) == b[q..e]
    decreases e - q
  {
    if q < e {
      CStringIs(b, q + 1, e);
      assert b[q..e] == [b[q]] + b[q + 1..e];
    }
  }

  /** The buffer is the line with the words of `c0` cut out. */
  ghost predicate CutFrom(s: string, b: string, c0: Cmd<Span>) {
    && '\0' !in s && |s| < |b| && AllWords(c0, WordIn(s))
    && forall k :: 0 <= k <= |s| ==> b[k] == if k == |s| || Ends(c0, k) then '\0' else s[k]
  }

  lemma WordWhole(s: string, b: string, c0: Cmd<Span>, w: Span)
    requires CutFrom(s, b, c0) && IsWord(s, w) && Ends(c0, w.eq)
    ensures CString(b, w.q) == TextOf(s, w)
  {
    forall k | w.q <= k < w.eq ensures b[k] == s[k] && b[k] != '\0' {
      if Ends(c0, k) {
        EndsAreBreaks(s, c0, k);
      }
    }
    CStringIs(b, w.q, w.eq);
    assert b[w.q..w.eq] == s[w.q..w.eq];
  }

  /** After `nulterminate`, each string in the tree is exactly its token. */
  lemma {:induction false} WordsWhole(s: string, b: string, c0: Cmd<Span>, c: Cmd<Span>)
    requires CutFrom(s, b, c0) && AllWords(c, WordIn(s)) && forall k: nat :: Ends(c, k) ==> Ends(c0, k)
    ensures MapCmd(CStrings(b), c) == MapCmd(Texts(s), c)
    decreases c
  {
    match c
    case Exec(args) =>
      forall i | 0 <= i < |args| ensures CStrings(b)(args[i]) == Texts(s)(args[i]) {
        assert WordIn(s)(args[i]) && Ends(c, args[i].eq);
        WordWhole(s, b, c0, args[i]);
      }
      assert MapWords(CStrings(b), args) == MapWords(Texts(s), args);
    case Redir(d, file, _) =>
      assert WordIn(s)(file) && Ends(c, file.eq);
      WordWhole(s, b, c0, file);
      WordsWhole(s, b, c0, d);
    case Pipe(l, r) =>
      WordsWhole(s, b, c0, l);
      WordsWhole(s, b, c0, r);
    case List(l, r) =>
      WordsWhole(s, b, c0, l);
      WordsWhole(s, b, c0, r);
    case Back(d) =>
      WordsWhole(s, b, c0, d);
  }
}
