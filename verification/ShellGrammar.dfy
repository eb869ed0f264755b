/** The command language of user/sh.c given as a grammar: concrete syntax trees with the tokens they spell and the
    command they mean. The parser accepts exactly the token sequences some tree spells, and yields its meaning. */
module ShellGrammar {
  import opened ShellSyntax
  import opened ShellText

  /** A word or a redirection of a simple command. */
  datatype Piece<W> = Arg(w: W) | Aim(file: W, mode: Mode)

  datatype ExecTree<W> = Simple(pieces: seq<Piece<W>>) | Block(line: LineTree<W>, redirs: seq<(W, Mode)>)

  datatype PipeTree<W> = One(e: ExecTree<W>) | Piped(e: ExecTree<W>, more: PipeTree<W>)

  /** Pipelines, each followed by `backs` times '&', separated by ';'. */
  datatype LineTree<W> = Last(p: PipeTree<W>, backs: nat) | Then(p: PipeTree<W>, backs: nat, more: LineTree<W>)

  // ----- Tokens -----

  function PieceTokens<W>(ps: seq<Piece<W>>): seq<Token<W>> {
    if ps == [] then []
    else (match ps[0] case Arg(w) => [Word(w)] case Aim(f, m) => [Sym(Symbol(m)), Word(f)]) + PieceTokens(ps[1..])
  }

  function Amps<W>(n: nat): seq<Token<W>> {
    if n == 0 then [] else [Sym('&')] + Amps(n - 1)
  }

  function ExecTokens<W>(e: ExecTree<W>): seq<Token<W>> {
    match e
    case Simple(ps) => PieceTokens(ps)
    case Block(l, rs) => [Sym('(')] + LineTokens(l) + [Sym(')')] + RedirTokens(rs)
  }

  function PipeTokens<W>(p: PipeTree<W>): seq<Token<W>> {
    match p
    case One(e) => ExecTokens(e)
    case Piped(e, more) => ExecTokens(e) + [Sym('|')] + PipeTokens(more)
  }

  function LineTokens<W>(l: LineTree<W>): seq<Token<W>> {
    match l
    case Last(p, n) => PipeTokens(p) + Amps(n)
    case Then(p, n, more) => PipeTokens(p) + Amps(n) + [Sym(';')] + LineTokens(more)
  }

  // ----- Meaning -----

  function ArgsOf<W>(ps: seq<Piece<W>>): seq<W> {
    if ps == [] then [] else (if ps[0].Arg? then [ps[0].w] else []) + ArgsOf(ps[1..])
  }

  function AimsOf<W>(ps: seq<Piece<W>>): seq<(W, Mode)> {
    if ps == [] then [] else (if ps[0].Aim? then [(ps[0].file, ps[0].mode)] else []) + AimsOf(ps[1..])
  }

  function Backed<W>(c: Cmd<W>, n: nat): Cmd<W>
    decreases n
  {
    if n == 0 then c else Backed(Back(c), n - 1)
  }

  /** The words are the arguments in their order and the redirections enclose the command in theirs, however the two
      are mixed. */
  function ExecMeaning<W>(e: ExecTree<W>): Cmd<W> {
    match e
    case Simple(ps) => Wrap(Exec(ArgsOf(ps)), AimsOf(ps))
    case Block(l, rs) => Wrap(LineMeaning(l), rs)
  }

  function PipeMeaning<W>(p: PipeTree<W>): Cmd<W> {
    match p
    case One(e) => ExecMeaning(e)
    case Piped(e, more) => Pipe(ExecMeaning(e), PipeMeaning(more))
  }

  function LineMeaning<W>(l: LineTree<W>): Cmd<W> {
    match l
    case Last(p, n) => Backed(PipeMeaning(p), n)
    case Then(p, n, more) => List(Backed(PipeMeaning(p), n), LineMeaning(more))
  }

  /** Every simple command has fewer words than `argv` has places. */
  predicate FitsExec<W>(e: ExecTree<W>) {
    match e case Simple(ps) => |ArgsOf(ps)| < MAXARGS case Block(l, _) => FitsLine(l)
  }

  predicate FitsPipe<W>(p: PipeTree<W>) {
    match p case One(e) => FitsExec(e) case Piped(e, more) => FitsExec(e) && FitsPipe(more)
  }

  predicate FitsLine<W>(l: LineTree<W>) {
    match l case Last(p, _) => FitsPipe(p) case Then(p, _, more) => FitsPipe(p) && FitsLine(more)
  }

  /** Tree `l` spells the tokens and means the command. */
  predicate Derives<W(==)>(l: LineTree<W>, ts: seq<Token<W>>, c: Cmd<W>) {
    FitsLine(l) && LineTokens(l) == ts && LineMeaning(l) == c
  }

  // ----- Every tree is parsed -----

  lemma RedirStep<W>(rs: seq<(W, Mode)>, f: W, m: Mode, more: seq<Token<W>>)
    ensures Redirs(rs, [Sym(Symbol(m)), Word(f)] + more) == Redirs(rs + [(f, m)], more)
  {
    var ts := [Sym(Symbol(m)), Word(f)] + more;
    assert ts[2..] == more;
  }

  lemma RedirsEnd<W>(rs: seq<(W, Mode)>, rest: seq<Token<W>>)
    requires EndsExec(rest)
    ensures Redirs(rs, rest) == Onto(rs, rest)
  {
  }

  lemma {:induction false} PiecesParsed<W>(args: seq<W>, rs: seq<(W, Mode)>, ps: seq<Piece<W>>, rest: seq<Token<W>>)
    requires EndsExec(rest) && |args| + |ArgsOf(ps)| < MAXARGS
    ensures var r := Redirs(rs, PieceTokens(ps) + rest);
            r.Onto? && Args(args, r.redirs, r.rest) == Ok(Wrap(Exec(args + ArgsOf(ps)), rs + AimsOf(ps)), rest)
    decreases |ps|
  {
    hide Wrap, Args, Redirs, EndsExec;
    var ts := PieceTokens(ps) + rest;
    if ps == [] {
      assert ts == rest && args + ArgsOf(ps) == args && rs + AimsOf(ps) == rs;
      RedirsEnd(rs, rest);
      ArgsEnd(args, rs, rest);
    } else {
      var more := PieceTokens(ps[1..]) + rest;
      match ps[0]
      case Arg(w) =>
        assert ts == [Word(w)] + more;
        assert args + [w] + ArgsOf(ps[1..]) == args + ArgsOf(ps) && AimsOf(ps) == AimsOf(ps[1..]);
        PiecesParsed(args + [w], rs, ps[1..], rest);
        NoRedirs(rs, ts);
        ArgStep(args, rs, w, more, Redirs(rs, more).redirs, Redirs(rs, more).rest);
      case Aim(f, m) =>
        assert ts == [Sym(Symbol(m)), Word(f)] + more;
        assert rs + [(f, m)] + AimsOf(ps[1..]) == rs + AimsOf(ps) && ArgsOf(ps) == ArgsOf(ps[1..]);
        PiecesParsed(args, rs + [(f, m)], ps[1..], rest);
        RedirStep(rs, f, m, more);
    }
  }

  lemma NoBlock<W>(ps: seq<Piece<W>>, rest: seq<Token<W>>)
    requires EndsExec(rest)
    ensures !Looks(PieceTokens(ps) + rest, {'('})
  {
    if ps == [] {
      assert PieceTokens(ps) + rest == rest;
    }
  }

  lemma {:induction false} ExecParsed<W>(e: ExecTree<W>, rest: seq<Token<W>>)
    requires FitsExec(e) && EndsExec(rest)
    ensures ParseExec(ExecTokens(e) + rest) == Ok(ExecMeaning(e), rest)
    decreases e
  {
    hide Wrap, ParseLine, Args, Redirs;
    match e
    case Simple(ps) =>
      NoBlock(ps, rest);
      PiecesParsed([], [], ps, rest);
      assert [] + ArgsOf(ps) == ArgsOf(ps) && [] + AimsOf(ps) == AimsOf(ps);
    case Block(l, rs) =>
      var after := [Sym(')')] + RedirTokens(rs) + rest;
      LineParsed(l, after);
      BlockPrinted(LineMeaning(l), LineTokens(l), rs, rest);
      assert ExecTokens(e) + rest == [Sym('(')] + LineTokens(l) + [Sym(')')] + RedirTokens(rs) + rest;
  }

  lemma {:induction false} PipeParsed<W>(p: PipeTree<W>, rest: seq<Token<W>>)
    requires FitsPipe(p) && EndsPipe(rest)
    ensures ParsePipe(PipeTokens(p) + rest) == Ok(PipeMeaning(p), rest)
    decreases p
  {
    hide ParseExec, ExecTokens, ExecMeaning;
    match p
    case One(e) => ExecParsed(e, rest);
    case Piped(e, more) =>
      var after := [Sym('|')] + PipeTokens(more) + rest;
      ExecParsed(e, after);
      assert PipeTokens(p) + rest == ExecTokens(e) + after && after[1..] == PipeTokens(more) + rest;
      PipeParsed(more, rest);
  }

  lemma {:induction false} AmpsParsed<W>(c: Cmd<W>, n: nat, rest: seq<Token<W>>)
    requires !Looks(rest, {'&'})
    ensures Backs(c, Amps(n) + rest) == (Backed(c, n), rest)
    ensures n > 0 ==> Looks(Amps(n) + rest, {'&'})
    decreases n
  {
    var ts := Amps(n) + rest;
    if n == 0 {
      assert ts == rest;
    } else {
      assert ts[1..] == Amps(n - 1) + rest;
      AmpsParsed(Back(c), n - 1, rest);
    }
  }

  lemma {:induction false} LineParsed<W>(l: LineTree<W>, rest: seq<Token<W>>)
    requires FitsLine(l) && EndsLine(rest)
    ensures ParseLine(LineTokens(l) + rest) == Ok(LineMeaning(l), rest)
    decreases l
  {
    hide ParsePipe, PipeTokens, PipeMeaning, Backs, Amps;
    match l
    case Last(p, n) =>
      AmpsParsed(PipeMeaning(p), n, rest);
      AmpsEnd(n, rest);
      PipeParsed(p, Amps(n) + rest);
      assert LineTokens(l) + rest == PipeTokens(p) + (Amps(n) + rest);
    case Then(p, n, more) =>
      var after := [Sym(';')] + LineTokens(more) + rest;
      AmpsParsed(PipeMeaning(p), n, after);
      AmpsEnd(n, after);
      PipeParsed(p, Amps(n) + after);
      assert LineTokens(l) + rest == PipeTokens(p) + (Amps(n) + after) && after[1..] == LineTokens(more) + rest;
      LineParsed(more, rest);
  }

  lemma AmpsEnd<W>(n: nat, rest: seq<Token<W>>)
    requires EndsPipe(rest)
    ensures EndsPipe(Amps(n) + rest)
  {
    assert n == 0 ==> Amps(n) + rest == rest;
  }

  // ----- Whatever is parsed has a tree -----

  /** A redirection in front. */
  lemma AimFirst<W>(rs: seq<(W, Mode)>, ts: seq<Token<W>>)
    requires Redirs(rs, ts).Onto? && Looks(ts, {'<', '>', '+'})
    ensures |ts| >= 2 && ts[1].Word?
    ensures var f, m := ts[1].w, ModeOf(ts[0].c);
            ts == [Sym(Symbol(m)), Word(f)] + ts[2..] && Redirs(rs, ts) == Redirs(rs + [(f, m)], ts[2..])
  {
    assert ts == [ts[0], ts[1]] + ts[2..];
  }

  /** A word in front, with the redirections behind it. */
  lemma WordFirst<W>(args: seq<W>, rs: seq<(W, Mode)>, ts: seq<Token<W>>)
    requires !Looks(ts, {'<', '>', '+'}) && Args(args, rs, ts).Ok? && !EndsExec(ts)
    ensures Redirs(rs, ts) == Onto(rs, ts) && ts[0].Word? && |args| + 1 < MAXARGS && ts == [Word(ts[0].w)] + ts[1..]
    ensures var r := Redirs(rs, ts[1..]); r.Onto? && Args(args, rs, ts) == Args(args + [ts[0].w], r.redirs, r.rest)
  {
  }

  lemma {:induction false} PiecesFound<W>(args: seq<W>, rs: seq<(W, Mode)>, ts: seq<Token<W>>)
    returns (ps: seq<Piece<W>>)
    requires |args| < MAXARGS && Redirs(rs, ts).Onto? && Args(args, Redirs(rs, ts).redirs, Redirs(rs, ts).rest).Ok?
    ensures var p := Args(args, Redirs(rs, ts).redirs, Redirs(rs, ts).rest);
            && ts == PieceTokens(ps) + p.rest && |args| + |ArgsOf(ps)| < MAXARGS
            && p.cmd == Wrap(Exec(args + ArgsOf(ps)), rs + AimsOf(ps))
    decreases |ts|
  {
    hide Wrap, Args, Redirs, Looks, EndsExec, ModeOf, Symbol;
    if Looks(ts, {'<', '>', '+'}) {
      AimFirst(rs, ts);
      var f, m := ts[1].w, ModeOf(ts[0].c);
      var more := PiecesFound(args, rs + [(f, m)], ts[2..]);
      ps := [Aim(f, m)] + more;
      assert ps[1..] == more && rs + [(f, m)] + AimsOf(more) == rs + AimsOf(ps) && ArgsOf(ps) == ArgsOf(more);
    } else if EndsExec(ts) {
      RedirsEnd(rs, ts);
      ArgsEnd(args, rs, ts);
      ps := [];
      assert args + ArgsOf(ps) == args && rs + AimsOf(ps) == rs;
    } else {
      NoAim(rs, ts);
      WordFirst(args, rs, ts);
      var w := ts[0].w;
      var more := PiecesFound(args + [w], rs, ts[1..]);
      ps := [Arg(w)] + more;
      assert ps[1..] == more && args + [w] + ArgsOf(more) == args + ArgsOf(ps) && AimsOf(ps) == AimsOf(more);
    }
  }

  lemma NoAim<W>(rs: seq<(W, Mode)>, ts: seq<Token<W>>)
    requires !Looks(ts, {'<', '>', '+'})
    ensures Redirs(rs, ts) == Onto(rs, ts)
  {
  }

  lemma {:induction false} RedirsFound<W>(r0: seq<(W, Mode)>, ts: seq<Token<W>>) returns (rs: seq<(W, Mode)>)
    requires Redirs(r0, ts).Onto?
    ensures ts == RedirTokens(rs) + Redirs(r0, ts).rest && Redirs(r0, ts).redirs == r0 + rs
    decreases |ts|
  {
    if Looks(ts, {'<', '>', '+'}) {
      var r := (ts[1].w, ModeOf(ts[0].c));
      var more := RedirsFound(r0 + [r], ts[2..]);
      rs := [r] + more;
      assert ts == [ts[0], ts[1]] + ts[2..] && rs[1..] == more && r0 + [r] + more == r0 + rs;
    } else {
      rs := [];
      assert r0 + rs == r0;
    }
  }

  lemma {:induction false} ExecFound<W>(ts: seq<Token<W>>) returns (e: ExecTree<W>)
    requires ParseExec(ts).Ok?
    ensures FitsExec(e) && ts == ExecTokens(e) + ParseExec(ts).rest && ParseExec(ts).cmd == ExecMeaning(e)
    decreases |ts|, 0
  {
    hide Wrap, Args, Redirs, ParseLine, RedirTokens, PieceTokens;
    if Looks(ts, {'('}) {
      var l := LineFound(ts[1..]);
      var rest := ParseLine(ts[1..]).rest;
      var rs := RedirsFound([], rest[1..]);
      assert [] + rs == rs;
      e := Block(l, rs);
      var last := ParseExec(ts).rest;
      assert ts == [ts[0]] + ts[1..] && rest == [Sym(')')] + rest[1..];
      assert ts == [Sym('(')] + (LineTokens(l) + ([Sym(')')] + (RedirTokens(rs) + last)));
    } else {
      var ps := PiecesFound([], [], ts);
      assert [] + ArgsOf(ps) == ArgsOf(ps) && [] + AimsOf(ps) == AimsOf(ps);
      e := Simple(ps);
    }
  }

  lemma {:induction false} PipeFound<W>(ts: seq<Token<W>>) returns (p: PipeTree<W>)
    requires ParsePipe(ts).Ok?
    ensures FitsPipe(p) && ts == PipeTokens(p) + ParsePipe(ts).rest && ParsePipe(ts).cmd == PipeMeaning(p)
    decreases |ts|, 1
  {
    hide ParseExec, ExecTokens, ExecMeaning;
    var e := ExecFound(ts);
    var rest := ParseExec(ts).rest;
    if Looks(rest, {'|'}) {
      var more := PipeFound(rest[1..]);
      p := Piped(e, more);
      assert rest == [Sym('|')] + rest[1..];
      assert ts == ExecTokens(e) + ([Sym('|')] + (PipeTokens(more) + ParsePipe(ts).rest));
    } else {
      p := One(e);
    }
  }

  lemma {:induction false} AmpsFound<W>(c: Cmd<W>, ts: seq<Token<W>>) returns (n: nat)
    ensures ts == Amps(n) + Backs(c, ts).1 && Backs(c, ts).0 == Backed(c, n)
    decreases |ts|
  {
    if Looks(ts, {'&'}) {
      var m := AmpsFound(Back(c), ts[1..]);
      n := m + 1;
      assert ts == [Sym('&')] + ts[1..];
    } else {
      n := 0;
    }
  }

  lemma {:induction false} LineFound<W>(ts: seq<Token<W>>) returns (l: LineTree<W>)
    requires ParseLine(ts).Ok?
    ensures FitsLine(l) && ts == LineTokens(l) + ParseLine(ts).rest && ParseLine(ts).cmd == LineMeaning(l)
    decreases |ts|, 2
  {
    hide ParsePipe, PipeTokens, PipeMeaning, Amps, Backed, Backs;
    var p := PipeFound(ts);
    var q := ParsePipe(ts);
    var n := AmpsFound(q.cmd, q.rest);
    var rest := Backs(q.cmd, q.rest).1;
    if Looks(rest, {';'}) {
      var more := LineFound(rest[1..]);
      l := Then(p, n, more);
      var last := ParseLine(rest[1..]).rest;
      assert rest == [Sym(';')] + rest[1..];
      Regroup(PipeTokens(p), Amps(n), [Sym(';')], LineTokens(more), last);
    } else {
      l := Last(p, n);
      assert ts == PipeTokens(p) + (Amps(n) + rest);
    }
  }

  lemma Regroup<T>(a: seq<T>, b: seq<T>, c: seq<T>, d: seq<T>, e: seq<T>)
    ensures a + (b + (c + (d + e))) == a + b + c + d + e
  {
  }

  /** `parsecmd` yields a command exactly when some tree spells the whole line and means it; otherwise it panics. */
  lemma ParsesExactlyTheGrammar<W(!new)>(ts: seq<Token<W>>, c: Cmd<W>)
    ensures ParseCmd(ts) == Ok(c, []) <==> exists l: LineTree<W> :: Derives(l, ts, c)
    ensures ParseCmd(ts) == Fail <==> !exists l: LineTree<W>, d: Cmd<W> :: Derives(l, ts, d)
  {
    hide ParseLine, FitsLine, LineTokens, LineMeaning;
    forall l: LineTree<W>, d: Cmd<W> | Derives(l, ts, d) ensures ParseCmd(ts) == Ok(d, []) {
      LineParsed(l, []);
      assert LineTokens(l) + [] == ts;
    }
    var p := ParseLine(ts);
    if p.Ok? && p.rest == [] {
      var l := LineFound(ts);
      assert LineTokens(l) + [] == LineTokens(l);
      assert Derives(l, ts, p.cmd);
    }
  }

  /** From a line of text to its tree: some spacing of the tokens of some syntax tree is the line. */
  lemma ReadsExactlyTheLanguage(s: string, c: Cmd<string>)
    requires '\0' !in s
    ensures ParseText(s) == Ok(c, []) <==>
              exists l: LineTree<string>, ts, gaps :: Derives(l, ts, c) && AllValid(ts) && Spelled(s, gaps, ts)
  {
    hide Lex, LineTokens, LineMeaning, FitsLine, Spelled, AllValid;
    var ts := MapTokens(Texts(s), Lex(s, 0));
    TextParses(s);
    ParsesExactlyTheGrammar(ts, c);
    LexExactly(s, ts);
    forall l: LineTree<string>, us, gaps | Derives(l, us, c) && AllValid(us) && Spelled(s, gaps, us)
      ensures us == ts
    {
      LexExactly(s, us);
    }
    if ParseText(s) == Ok(c, []) {
      var l: LineTree<string> :| Derives(l, ts, c);
      var gaps :| Spelled(s, gaps, ts);
      assert Derives(l, ts, c) && AllValid(ts) && Spelled(s, gaps, ts);
    }
  }
}
