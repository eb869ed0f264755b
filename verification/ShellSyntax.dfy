/** The command grammar of user/sh.c on token sequences: the parser as functions, a printer, and the proof that
    parsing undoes printing. A word is a `W`: a string, or a span of the command line. */
module ShellSyntax {
  const MAXARGS: nat := 10

  datatype Mode = Read | Write | Append

  datatype Cmd<W> =
    | Exec(args: seq<W>)
    | Redir(cmd: Cmd<W>, file: W, mode: Mode)
    | Pipe(left: Cmd<W>, right: Cmd<W>)
    | List(left: Cmd<W>, right: Cmd<W>)
    | Back(cmd: Cmd<W>)

  /** What `gettoken` returns: the symbol itself, '+' for ">>", or a word. */
  datatype Token<W> = Sym(c: char) | Word(w: W)

  datatype Parsed<W> = Fail | Ok(cmd: Cmd<W>, rest: seq<Token<W>>)

  /** `peek` for one of the symbols `cs`. */
  predicate Looks<W>(ts: seq<Token<W>>, cs: set<char>) {
    ts != [] && ts[0].Sym? && ts[0].c in cs
  }

  function ModeOf(c: char): Mode {
    if c == '<' then Read else if c == '>' then Write else Append
  }

  // ----- The parser -----

  datatype Redirected<W> = NoFile | Onto(redirs: seq<(W, Mode)>, rest: seq<Token<W>>)

  /** `parseredirs`: the redirections that follow `redirs`. */
  function Redirs<W>(redirs: seq<(W, Mode)>, ts: seq<Token<W>>): (r: Redirected<W>)
    ensures r.Onto? ==> |r.rest| <= |ts| && !Looks(r.rest, {'<', '>', '+'})
    decreases |ts|
  {
    if !Looks(ts, {'<', '>', '+'}) then Onto(redirs, ts)
    else if |ts| < 2 || !ts[1].Word? then NoFile
    else Redirs(redirs + [(ts[1].w, ModeOf(ts[0].c))], ts[2..])
  }

  /** Later redirections enclose earlier ones. */
  function Wrap<W>(c: Cmd<W>, redirs: seq<(W, Mode)>): Cmd<W>
    decreases |redirs|
  {
    if redirs == [] then c
    else var n := |redirs| - 1; Redir(Wrap(c, redirs[..n]), redirs[n].0, redirs[n].1)
  }

  /** The loop of `parseexec`, after `args` and `redirs`. */
  function Args<W>(args: seq<W>, redirs: seq<(W, Mode)>, ts: seq<Token<W>>): (r: Parsed<W>)
    ensures r.Ok? ==> |r.rest| <= |ts|
    decreases |ts|
  {
    if ts == [] || Looks(ts, {'|', ')', '&', ';'}) then Ok(Wrap(Exec(args), redirs), ts)
    else if !ts[0].Word? || |args| + 1 >= MAXARGS then Fail
    else
      match Redirs(redirs, ts[1..])
      case NoFile => Fail
      case Onto(redirs', rest) => Args(args + [ts[0].w], redirs', rest)
  }

  /** `parseexec` and `parseblock`. */
  function ParseExec<W>(ts: seq<Token<W>>): (r: Parsed<W>)
    ensures r.Ok? ==> |r.rest| <= |ts|
    decreases |ts|, 0
  {
    if Looks(ts, {'('}) then
      match ParseLine(ts[1..])
      case Fail => Fail
      case Ok(c, rest) =>
        if !Looks(rest, {')'}) then Fail
        else
          match Redirs([], rest[1..])
          case NoFile => Fail
          case Onto(redirs, rest') => Ok(Wrap(c, redirs), rest')
    else
      match Redirs([], ts)
      case NoFile => Fail
      case Onto(redirs, rest) => Args([], redirs, rest)
  }

  function ParsePipe<W>(ts: seq<Token<W>>): (r: Parsed<W>)
    ensures r.Ok? ==> |r.rest| <= |ts|
    decreases |ts|, 1
  {
    match ParseExec(ts)
    case Fail => Fail
    case Ok(c, rest) =>
      if !Looks(rest, {'|'}) then Ok(c, rest)
      else
        match ParsePipe(rest[1..])
        case Fail => Fail
        case Ok(d, rest') => Ok(Pipe(c, d), rest')
  }

  function Backs<W>(c: Cmd<W>, ts: seq<Token<W>>): (r: (Cmd<W>, seq<Token<W>>))
    ensures |r.1| <= |ts|
    decreases |ts|
  {
    if Looks(ts, {'&'}) then Backs(Back(c), ts[1..]) else (c, ts)
  }

  function ParseLine<W>(ts: seq<Token<W>>): (r: Parsed<W>)
    ensures r.Ok? ==> |r.rest| <= |ts|
    decreases |ts|, 2
  {
    match ParsePipe(ts)
    case Fail => Fail
    case Ok(c0, rest0) =>
      var (c, rest) := Backs(c0, rest0);
      if !Looks(rest, {';'}) then Ok(c, rest)
      else
        match ParseLine(rest[1..])
        case Fail => Fail
        case Ok(d, rest') => Ok(List(c, d), rest')
  }

  /** `parsecmd`: nothing may be left over. */
  function ParseCmd<W>(ts: seq<Token<W>>): Parsed<W> {
    match ParseLine(ts)
    case Fail => Fail
    case Ok(c, rest) => if rest == [] then Ok(c, []) else Fail
  }

  // ----- The printer -----

  function Symbol(m: Mode): char {
    match m case Read => '<' case Write => '>' case Append => '+'
  }

  function Words<W>(args: seq<W>): seq<Token<W>> {
    if args == [] then [] else [Word(args[0])] + Words(args[1..])
  }

  /** As an operand of '|', in parentheses unless it is a simple command or redirected. */
  function PrintExec<W>(c: Cmd<W>): seq<Token<W>>
    decreases c, if c.Pipe? then 4 else if c.Back? then 3 else if c.List? then 2 else 0
  {
    match c
    case Exec(args) => Words(args)
    case Redir(d, file, mode) => PrintExec(d) + [Sym(Symbol(mode)), Word(file)]
    case _ => [Sym('(')] + PrintLine(c) + [Sym(')')]
  }

  function PrintPipe<W>(c: Cmd<W>): seq<Token<W>>
    decreases c, if c.Pipe? then 1 else if c.Back? then 4 else if c.List? then 3 else 1
  {
    if c.Pipe? then PrintExec(c.left) + [Sym('|')] + PrintPipe(c.right) else PrintExec(c)
  }

  function PrintBack<W>(c: Cmd<W>): seq<Token<W>>
    decreases c, if c.Pipe? then 2 else if c.Back? then 1 else if c.List? then 4 else 2
  {
    if c.Back? then PrintBack(c.cmd) + [Sym('&')] else PrintPipe(c)
  }

  function PrintLine<W>(c: Cmd<W>): seq<Token<W>>
    decreases c, if c.Pipe? then 3 else if c.Back? then 2 else if c.List? then 1 else 3
  {
    if c.List? then PrintBack(c.left) + [Sym(';')] + PrintLine(c.right) else PrintBack(c)
  }

  /** Every simple command fits `argv`. */
  predicate Fits<W>(c: Cmd<W>) {
    match c
    case Exec(args) => |args| < MAXARGS
    case Redir(d, _, _) => Fits(d)
    case Pipe(l, r) => Fits(l) && Fits(r)
    case List(l, r) => Fits(l) && Fits(r)
    case Back(d) => Fits(d)
  }

  /** '<' opens for reading, '>' truncates, ">>" does not; each mode has its own symbol. */
  lemma ModesAndSymbols(m: Mode)
    ensures ModeOf('<') == Read && ModeOf('>') == Write && ModeOf('+') == Append && ModeOf(Symbol(m)) == m
  {
  }

  // ----- Parsing undoes printing -----

  function RedirTokens<W>(rs: seq<(W, Mode)>): seq<Token<W>> {
    if rs == [] then [] else [Sym(Symbol(rs[0].1)), Word(rs[0].0)] + RedirTokens(rs[1..])
  }

  predicate EndsExec<W>(ts: seq<Token<W>>) {
    ts == [] || Looks(ts, {'|', ')', '&', ';'})
  }

  predicate EndsPipe<W>(ts: seq<Token<W>>) {
    ts == [] || Looks(ts, {')', '&', ';'})
  }

  predicate EndsLine<W>(ts: seq<Token<W>>) {
    ts == [] || Looks(ts, {')'})
  }

  lemma {:induction false} RedirsPrinted<W>(r0: seq<(W, Mode)>, rs: seq<(W, Mode)>, rest: seq<Token<W>>)
    requires !Looks(rest, {'<', '>', '+'})
    ensures Redirs(r0, RedirTokens(rs) + rest) == Onto(r0 + rs, rest)
    decreases |rs|
  {
    var ts := RedirTokens(rs) + rest;
    if rs == [] {
      assert ts == rest && r0 + rs == r0;
    } else {
      assert ts[2..] == RedirTokens(rs[1..]) + rest;
      RedirsPrinted(r0 + [rs[0]], rs[1..], rest);
      assert r0 + [rs[0]] + rs[1..] == r0 + rs;
    }
  }

  lemma {:induction false} WrapCons<W>(c: Cmd<W>, file: W, mode: Mode, rs: seq<(W, Mode)>)
    ensures Wrap(c, [(file, mode)] + rs) == Wrap(Redir(c, file, mode), rs)
    decreases |rs|
  {
    var all := [(file, mode)] + rs;
    if rs == [] {
      assert all[..0] == [];
      assert Wrap(c, all[..0]) == c;
    } else {
      var n := |rs| - 1;
      assert all[..n + 1] == [(file, mode)] + rs[..n];
      WrapCons(c, file, mode, rs[..n]);
    }
  }

  lemma ArgStep<W>(args: seq<W>, r0: seq<(W, Mode)>, w: W, ts: seq<Token<W>>, r1: seq<(W, Mode)>, rest: seq<Token<W>>)
    requires |args| + 1 < MAXARGS && Redirs(r0, ts) == Onto(r1, rest)
    ensures Args(args, r0, [Word(w)] + ts) == Args(args + [w], r1, rest)
  {
    assert ([Word(w)] + ts)[1..] == ts;
  }

  lemma ArgsEnd<W>(args: seq<W>, redirs: seq<(W, Mode)>, rest: seq<Token<W>>)
    requires EndsExec(rest)
    ensures Args(args, redirs, rest) == Ok(Wrap(Exec(args), redirs), rest)
  {
  }

  lemma NoRedirs<W>(redirs: seq<(W, Mode)>, ts: seq<Token<W>>)
    requires ts != [] && ts[0].Word?
    ensures Redirs(redirs, ts) == Onto(redirs, ts) && !Looks(ts, {'('})
  {
  }

  /** Words, and then a tail that starts with redirections and goes on with `rest`. */
  lemma {:induction false} ArgsPrinted<W>(args: seq<W>, r0: seq<(W, Mode)>, ws: seq<W>, tail: seq<Token<W>>,
                                          r1: seq<(W, Mode)>, rest: seq<Token<W>>)
    requires |args| + |ws| < MAXARGS && EndsExec(rest) && ws != [] && Redirs(r0, tail) == Onto(r1, rest)
    ensures Args(args, r0, Words(ws) + tail) == Ok(Wrap(Exec(args + ws), r1), rest)
    decreases |ws|
  {
    hide Wrap, Args, Redirs, EndsExec;
    var ts := Words(ws[1..]) + tail;
    assert Words(ws) + tail == [Word(ws[0])] + ts;
    if |ws| == 1 {
      assert ts == tail && ws == [ws[0]];
      hide Words;
      ArgStep(args, r0, ws[0], tail, r1, rest);
      ArgsEnd(args + [ws[0]], r1, rest);
    } else {
      assert ts[0] == Word(ws[1]) && args + [ws[0]] + ws[1..] == args + ws;
      hide Words;
      NoRedirs(r0, ts);
      ArgStep(args, r0, ws[0], ts, r0, ts);
      ArgsPrinted(args + [ws[0]], r0, ws[1..], tail, r1, rest);
    }
  }

  /** What does not open a block is redirections and then words. */
  lemma ExecIsArgs<W>(ts: seq<Token<W>>, rs: seq<(W, Mode)>, rest: seq<Token<W>>)
    requires !Looks(ts, {'('}) && Redirs([], ts) == Onto(rs, rest)
    ensures ParseExec(ts) == Args([], rs, rest)
  {
    hide Looks, Redirs, Args, ParseLine;
  }

  /** Redirections of no words at all. */
  lemma BarePrinted<W>(rs: seq<(W, Mode)>, rest: seq<Token<W>>)
    requires EndsExec(rest)
    ensures ParseExec(RedirTokens(rs) + rest) == Ok(Wrap(Exec([]), rs), rest)
  {
    hide Wrap, Args, Redirs, ParseExec;
    var ts := RedirTokens(rs) + rest;
    assert [] + rs == rs;
    RedirsPrinted([], rs, rest);
    assert !Looks(ts, {'('});
    ExecIsArgs(ts, rs, rest);
    ArgsEnd([], rs, rest);
  }

  /** A simple command with redirections after it. */
  lemma ExecPrinted<W>(args: seq<W>, rs: seq<(W, Mode)>, rest: seq<Token<W>>)
    requires |args| < MAXARGS && EndsExec(rest)
    ensures ParseExec(Words(args) + RedirTokens(rs) + rest) == Ok(Wrap(Exec(args), rs), rest)
  {
    hide Wrap, Args, Redirs, ParseExec, RedirTokens;
    var tail := RedirTokens(rs) + rest;
    var ts := Words(args) + tail;
    assert Words(args) + RedirTokens(rs) + rest == ts;
    if args == [] {
      assert ts == tail;
      BarePrinted(rs, rest);
    } else {
      RedirsPrinted([], rs, rest);
      assert [] + rs == rs && [] + args == args && ts[0] == Word(args[0]);
      NoRedirs([], ts);
      ExecIsArgs(ts, [], ts);
      ArgsPrinted([], [], args, tail, rs, rest);
    }
  }

  /** A block with redirections after it. */
  lemma BlockPrinted<W>(c: Cmd<W>, inner: seq<Token<W>>, rs: seq<(W, Mode)>, rest: seq<Token<W>>)
    requires ParseLine(inner + ([Sym(')')] + RedirTokens(rs) + rest)) == Ok(c, [Sym(')')] + RedirTokens(rs) + rest)
             && EndsExec(rest)
    ensures ParseExec([Sym('(')] + inner + [Sym(')')] + RedirTokens(rs) + rest) == Ok(Wrap(c, rs), rest)
  {
    hide Wrap, ParseLine, Redirs, RedirTokens;
    var ts := [Sym('(')] + inner + [Sym(')')] + RedirTokens(rs) + rest;
    var after := [Sym(')')] + RedirTokens(rs) + rest;
    assert ts[1..] == inner + after;
    assert after[1..] == RedirTokens(rs) + rest;
    RedirsPrinted([], rs, rest);
    assert [] + rs == rs;
  }

  lemma {:induction false} ExecUndone<W>(c: Cmd<W>, rs: seq<(W, Mode)>, rest: seq<Token<W>>)
    requires Fits(c) && EndsExec(rest)
    ensures ParseExec(PrintExec(c) + RedirTokens(rs) + rest) == Ok(Wrap(c, rs), rest)
    decreases c, if c.Pipe? then 4 else if c.Back? then 3 else if c.List? then 2 else 0
  {
    hide Wrap, ParseExec, ParseLine, ParsePipe;
    match c
    case Exec(args) => ExecPrinted(args, rs, rest);
    case Redir(d, file, mode) =>
      ExecUndone(d, [(file, mode)] + rs, rest);
      RedirTokensCons(file, mode, rs);
      assert PrintExec(c) + RedirTokens(rs) + rest == PrintExec(d) + RedirTokens([(file, mode)] + rs) + rest;
      WrapCons(d, file, mode, rs);
    case _ =>
      var after := [Sym(')')] + RedirTokens(rs) + rest;
      LineUndone(c, after);
      BlockPrinted(c, PrintLine(c), rs, rest);
      assert PrintExec(c) + RedirTokens(rs) + rest == [Sym('(')] + PrintLine(c) + [Sym(')')] + RedirTokens(rs) + rest;
  }

  lemma RedirTokensCons<W>(file: W, mode: Mode, rs: seq<(W, Mode)>)
    ensures RedirTokens([(file, mode)] + rs) == [Sym(Symbol(mode)), Word(file)] + RedirTokens(rs)
  {
    assert ([(file, mode)] + rs)[1..] == rs;
  }

  lemma {:induction false} PipeUndone<W>(c: Cmd<W>, rest: seq<Token<W>>)
    requires Fits(c) && EndsPipe(rest)
    ensures ParsePipe(PrintPipe(c) + rest) == Ok(c, rest)
    decreases c, if c.Pipe? then 1 else if c.Back? then 4 else if c.List? then 3 else 1
  {
    hide ParseExec, ParseLine, PrintExec, PrintLine;
    if c.Pipe? {
      var after := [Sym('|')] + PrintPipe(c.right) + rest;
      ExecUndone(c.left, [], after);
      assert PrintExec(c.left) + RedirTokens([]) + after == PrintPipe(c) + rest;
      assert after[1..] == PrintPipe(c.right) + rest;
      PipeUndone(c.right, rest);
    } else {
      ExecUndone(c, [], rest);
      assert PrintExec(c) + RedirTokens([]) + rest == PrintPipe(c) + rest;
    }
  }

  lemma {:induction false} BackUndone<W>(c: Cmd<W>, rest: seq<Token<W>>)
    requires Fits(c) && EndsPipe(rest)
    ensures var p := ParsePipe(PrintBack(c) + rest); p.Ok? && Backs(p.cmd, p.rest) == Backs(c, rest)
    decreases c, if c.Pipe? then 2 else if c.Back? then 1 else if c.List? then 4 else 2
  {
    hide ParsePipe, ParseLine, PrintPipe;
    if c.Back? {
      var after := [Sym('&')] + rest;
      BackUndone(c.cmd, after);
      assert PrintBack(c.cmd) + after == PrintBack(c) + rest;
      assert after[1..] == rest;
    } else {
      PipeUndone(c, rest);
    }
  }

  lemma {:induction false} LineUndone<W>(c: Cmd<W>, rest: seq<Token<W>>)
    requires Fits(c) && EndsLine(rest)
    ensures ParseLine(PrintLine(c) + rest) == Ok(c, rest)
    decreases c, if c.Pipe? then 3 else if c.Back? then 2 else if c.List? then 1 else 3
  {
    hide ParsePipe, PrintPipe, PrintBack;
    if c.List? {
      var after := [Sym(';')] + PrintLine(c.right) + rest;
      BackUndone(c.left, after);
      assert PrintBack(c.left) + after == PrintLine(c) + rest;
      assert after[1..] == PrintLine(c.right) + rest;
      LineUndone(c.right, rest);
    } else {
      BackUndone(c, rest);
    }
  }

  /** For every command tree, parsing its printed form yields the same tree. */
  lemma ParseUndoesPrint<W>(c: Cmd<W>)
    requires Fits(c)
    ensures ParseCmd(PrintLine(c)) == Ok(c, [])
  {
    LineUndone(c, []);
    assert PrintLine(c) + [] == PrintLine(c);
  }

  // ----- Parsing does not look into words -----

  function MapToken<V, W>(f: V -> W, t: Token<V>): Token<W> {
    match t case Sym(c) => Sym(c) case Word(w) => Word(f(w))
  }

  function MapTokens<V, W>(f: V -> W, ts: seq<Token<V>>): seq<Token<W>> {
    seq(|ts|, i requires 0 <= i < |ts| => MapToken(f, ts[i]))
  }

  function MapWords<V, W>(f: V -> W, ws: seq<V>): seq<W> {
    seq(|ws|, i requires 0 <= i < |ws| => f(ws[i]))
  }

  function MapRedirs<V, W>(f: V -> W, rs: seq<(V, Mode)>): seq<(W, Mode)> {
    seq(|rs|, i requires 0 <= i < |rs| => (f(rs[i].0), rs[i].1))
  }

  function MapCmd<V, W>(f: V -> W, c: Cmd<V>): Cmd<W> {
    match c
    case Exec(args) => Exec(MapWords(f, args))
    case Redir(d, file, mode) => Redir(MapCmd(f, d), f(file), mode)
    case Pipe(l, r) => Pipe(MapCmd(f, l), MapCmd(f, r))
    case List(l, r) => List(MapCmd(f, l), MapCmd(f, r))
    case Back(d) => Back(MapCmd(f, d))
  }

  function MapParsed<V, W>(f: V -> W, p: Parsed<V>): Parsed<W> {
    match p case Fail => Fail case Ok(c, rest) => Ok(MapCmd(f, c), MapTokens(f, rest))
  }

  function MapRedirected<V, W>(f: V -> W, p: Redirected<V>): Redirected<W> {
    match p case NoFile => NoFile case Onto(rs, rest) => Onto(MapRedirs(f, rs), MapTokens(f, rest))
  }

  lemma {:induction false} RedirsMap<V, W>(f: V -> W, rs: seq<(V, Mode)>, ts: seq<Token<V>>)
    ensures Redirs(MapRedirs(f, rs), MapTokens(f, ts)) == MapRedirected(f, Redirs(rs, ts))
    decreases |ts|
  {
    if Looks(ts, {'<', '>', '+'}) && |ts| >= 2 && ts[1].Word? {
      var r := (ts[1].w, ModeOf(ts[0].c));
      RedirsMap(f, rs + [r], ts[2..]);
      assert MapTokens(f, ts)[2..] == MapTokens(f, ts[2..]);
      assert MapRedirs(f, rs + [r]) == MapRedirs(f, rs) + [(f(r.0), r.1)];
    }
  }

  lemma {:induction false} WrapMap<V, W>(f: V -> W, c: Cmd<V>, rs: seq<(V, Mode)>)
    ensures Wrap(MapCmd(f, c), MapRedirs(f, rs)) == MapCmd(f, Wrap(c, rs))
    decreases |rs|
  {
    if rs != [] {
      var n := |rs| - 1;
      WrapMap(f, c, rs[..n]);
      assert MapRedirs(f, rs)[..n] == MapRedirs(f, rs[..n]);
    }
  }

  lemma {:induction false} ArgsMap<V, W>(f: V -> W, args: seq<V>, rs: seq<(V, Mode)>, ts: seq<Token<V>>)
    ensures Args(MapWords(f, args), MapRedirs(f, rs), MapTokens(f, ts)) == MapParsed(f, Args(args, rs, ts))
    decreases |ts|
  {
    var ts' := MapTokens(f, ts);
    if ts == [] || Looks(ts, {'|', ')', '&', ';'}) {
      WrapMap(f, Exec(args), rs);
    } else if ts[0].Word? && |args| + 1 < MAXARGS {
      assert ts'[1..] == MapTokens(f, ts[1..]);
      RedirsMap(f, rs, ts[1..]);
      var r := Redirs(rs, ts[1..]);
      if r.Onto? {
        ArgsMap(f, args + [ts[0].w], r.redirs, r.rest);
        assert MapWords(f, args + [ts[0].w]) == MapWords(f, args) + [ts'[0].w];
      }
    }
  }

  lemma {:induction false} ExecMap<V, W>(f: V -> W, ts: seq<Token<V>>)
    ensures ParseExec(MapTokens(f, ts)) == MapParsed(f, ParseExec(ts))
    decreases |ts|, 0
  {
    hide ParseLine, Redirs, Args, Wrap;
    var ts' := MapTokens(f, ts);
    var none: seq<(V, Mode)> := [];
    var noWords: seq<V> := [];
    assert MapRedirs(f, none) == [] && MapWords(f, noWords) == [];
    if Looks(ts, {'('}) {
      assert ts'[1..] == MapTokens(f, ts[1..]);
      LineMap(f, ts[1..]);
      var p := ParseLine(ts[1..]);
      if p.Ok? && Looks(p.rest, {')'}) {
        assert MapTokens(f, p.rest)[1..] == MapTokens(f, p.rest[1..]);
        RedirsMap(f, [], p.rest[1..]);
        var r := Redirs([], p.rest[1..]);
        if r.Onto? {
          WrapMap(f, p.cmd, r.redirs);
        }
      }
    } else {
      RedirsMap(f, [], ts);
      var r := Redirs([], ts);
      if r.Onto? {
        ArgsMap(f, [], r.redirs, r.rest);
      }
    }
  }

  lemma {:induction false} PipeMap<V, W>(f: V -> W, ts: seq<Token<V>>)
    ensures ParsePipe(MapTokens(f, ts)) == MapParsed(f, ParsePipe(ts))
    decreases |ts|, 1
  {
    hide ParseExec;
    ExecMap(f, ts);
    var p := ParseExec(ts);
    if p.Ok? && Looks(p.rest, {'|'}) {
      assert MapTokens(f, p.rest)[1..] == MapTokens(f, p.rest[1..]);
      PipeMap(f, p.rest[1..]);
    }
  }

  lemma {:induction false} BacksMap<V, W>(f: V -> W, c: Cmd<V>, ts: seq<Token<V>>)
    ensures var (d, rest) := Backs(c, ts); Backs(MapCmd(f, c), MapTokens(f, ts)) == (MapCmd(f, d), MapTokens(f, rest))
    decreases |ts|
  {
    if Looks(ts, {'&'}) {
      assert MapTokens(f, ts)[1..] == MapTokens(f, ts[1..]);
      BacksMap(f, Back(c), ts[1..]);
    }
  }

  lemma {:induction false} LineMap<V, W>(f: V -> W, ts: seq<Token<V>>)
    ensures ParseLine(MapTokens(f, ts)) == MapParsed(f, ParseLine(ts))
    decreases |ts|, 2
  {
    hide ParsePipe;
    PipeMap(f, ts);
    var p := ParsePipe(ts);
    if p.Ok? {
      BacksMap(f, p.cmd, p.rest);
      var (c, rest) := Backs(p.cmd, p.rest);
      if Looks(rest, {';'}) {
        assert MapTokens(f, rest)[1..] == MapTokens(f, rest[1..]);
        LineMap(f, rest[1..]);
      }
    }
  }
}
