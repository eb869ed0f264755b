/** Space reservation in the redo log (`begin_op`, `log_write`, `end_op` of kernel/log.c), as atomic
    steps of any number of concurrent file-system operations. */
module LogSpace {
  import opened Common

  const MAXOPBLOCKS: nat := 10
  const LOGSIZE: nat := MAXOPBLOCKS * 3

  /** `log.lh.block[..log.lh.n]`, `log.outstanding` and `log.committing`. */
  datatype Header = Header(blocks: seq<nat>, outstanding: int, committing: bool)

  // ----- The three critical sections -----

  /** The test that lets `begin_op` leave its sleep loop. */
  predicate MayBegin(h: Header) {
    !h.committing && |h.blocks| + (h.outstanding + 1) * MAXOPBLOCKS <= LOGSIZE
  }

  function Begun(h: Header): Header {
    h.(outstanding := h.outstanding + 1)
  }

  function Ended(h: Header): Header {
    h.(outstanding := h.outstanding - 1, committing := h.outstanding == 1)
  }

  /** The two panics of `log_write`; `size` is `log.size`. Both come before the search for an
      existing entry, so they also strike a block that needs no new slot. */
  predicate LogWritePanics(h: Header, size: int) {
    |h.blocks| >= LOGSIZE || |h.blocks| >= size - 1 || h.outstanding < 1
  }

  /** Log absorption: a block already in the transaction keeps its slot. */
  function Logged(h: Header, b: nat): Header {
    if b in h.blocks then h else h.(blocks := h.blocks + [b])
  }

  function Committed(h: Header): Header {
    h.(blocks := [], committing := false)
  }

  // ----- Concurrent operations -----

  /** `ops` are the operations between `begin_op` and `end_op`; `used` holds (op, b) when `op` has
      logged block `b`. */
  datatype State = State(log: Header, ops: set<nat>, used: set<(nat, nat)>)

  datatype Act = BeginOp(op: nat) | LogWrite(op: nat, b: nat) | EndOp(op: nat) | FinishCommit

  datatype Outcome = Running(s: State) | Panicked

  const INIT := State(Header([], 0, false), {}, {})

  /** The distinct blocks one operation has logged. */
  function Of(used: set<(nat, nat)>, op: nat): set<(nat, nat)> {
    set p | p in used && p.0 == op
  }

  /** One step. A `begin_op` that must sleep leaves the state alone, and so does an act that its
      caller cannot make. */
  function Step(s: State, size: int, a: Act): Outcome {
    match a
    case BeginOp(op) =>
      if op in s.ops || !MayBegin(s.log) then Running(s)
      else Running(s.(log := Begun(s.log), ops := s.ops + {op}))
    case LogWrite(op, b) =>
      if op !in s.ops then Running(s)
      else if LogWritePanics(s.log, size) then Panicked
      else Running(s.(log := Logged(s.log, b), used := s.used + {(op, b)}))
    case EndOp(op) =>
      if op !in s.ops then Running(s)
      else if s.log.committing then Panicked
      else Running(State(Ended(s.log), s.ops - {op}, s.used - Of(s.used, op)))
    case FinishCommit =>
      if s.log.committing then Running(s.(log := Committed(s.log))) else Running(s)
  }

  function Exec(s: State, size: int, acts: seq<Act>): Outcome
    decreases |acts|
  {
    if acts == [] then Running(s)
    else
      match Step(s, size, acts[0])
      case Running(s') => Exec(s', size, acts[1..])
      case Panicked => Panicked
  }

  // ----- Caller discipline -----

  /** `op` has not yet logged its full allowance when it logs again. */
  predicate HasSpare(s: State, a: Act) {
    a.LogWrite? ==> |Of(s.used, a.op)| < MAXOPBLOCKS
  }

  /** `op` never logs more than its allowance of distinct blocks. */
  predicate WithinBudget(s: State, a: Act) {
    a.LogWrite? ==> |Of(s.used, a.op) + {(a.op, a.b)}| <= MAXOPBLOCKS
  }

  predicate AlwaysSpare(s: State, size: int, acts: seq<Act>)
    decreases |acts|
  {
    acts == [] ||
    (HasSpare(s, acts[0]) &&
     var o := Step(s, size, acts[0]); o.Running? ==> AlwaysSpare(o.s, size, acts[1..]))
  }

  predicate AlwaysWithinBudget(s: State, size: int, acts: seq<Act>)
    decreases |acts|
  {
    acts == [] ||
    (WithinBudget(s, acts[0]) &&
     var o := Step(s, size, acts[0]); o.Running? ==> AlwaysWithinBudget(o.s, size, acts[1..]))
  }

  // ----- Invariant -----

  /** Blocks stay logged without a commit only while some operation is outstanding. The fourth conjunct says that
      the logged blocks and the unused allowances of the outstanding operations together fit in the log. */
  ghost predicate Inv(s: State) {
    && s.log.outstanding == |s.ops|
    && (s.log.committing ==> s.ops == {})
    && (s.ops == {} && !s.log.committing ==> s.log.blocks == [])
    && |s.log.blocks| + MAXOPBLOCKS * |s.ops| <= LOGSIZE + |s.used|
    && (forall op :: op in s.ops ==> |Of(s.used, op)| <= MAXOPBLOCKS)
    && (forall p :: p in s.used ==> p.0 in s.ops && p.1 in s.log.blocks)
    && Distinct(s.log.blocks)
  }

  /** Allowances bound what is used. */
  lemma {:induction false} UsedBound(ops: set<nat>, used: set<(nat, nat)>)
    requires forall p :: p in used ==> p.0 in ops
    requires forall op :: op in ops ==> |Of(used, op)| <= MAXOPBLOCKS
    ensures |used| <= MAXOPBLOCKS * |ops|
    ensures forall op :: op in ops && |Of(used, op)| < MAXOPBLOCKS ==> |used| < MAXOPBLOCKS * |ops|
    decreases |ops|
  {
    if used == {} {
      if ops != {} { var op :| op in ops; assert |ops| >= 1; }
    } else {
      forall op | op in ops
        ensures |used| <= MAXOPBLOCKS * |ops|
        ensures |Of(used, op)| < MAXOPBLOCKS ==> |used| < MAXOPBLOCKS * |ops|
      {
        var rest := used - Of(used, op);
        forall q | q in ops - {op} ensures |Of(rest, q)| <= MAXOPBLOCKS {
          assert Of(rest, q) == Of(used, q);
        }
        UsedBound(ops - {op}, rest);
        assert |ops| == |ops - {op}| + 1;
        assert |used| == |rest| + |Of(used, op)|;
      }
      var p :| p in used;
      assert p.0 in ops;
    }
  }

  /** Space suffices: there is always a free slot for an operation with allowance left. */
  lemma SpareSlot(s: State, op: nat)
    requires Inv(s)
    ensures |s.log.blocks| <= LOGSIZE
    ensures op in s.ops && |Of(s.used, op)| < MAXOPBLOCKS ==> |s.log.blocks| < LOGSIZE
  {
    UsedBound(s.ops, s.used);
  }

  lemma OfAdded(used: set<(nat, nat)>, op: nat, b: nat, q: nat)
    ensures Of(used + {(op, b)}, q) == if q == op then Of(used, op) + {(op, b)} else Of(used, q)
  {
  }

  lemma LoggedDistinct(h: Header, b: nat)
    requires Distinct(h.blocks)
    ensures var h' := Logged(h, b);
            && Distinct(h'.blocks) && |h'.blocks| <= |h.blocks| + 1 && h'.blocks != []
            && (forall x :: x in h.blocks || x == b ==> x in h'.blocks)
            && h'.outstanding == h.outstanding && h'.committing == h.committing && (b in h.blocks ==> h' == h)
  {
  }

  lemma LogWriteKeepsInv(s: State, size: int, op: nat, b: nat)
    requires Inv(s) && op in s.ops && !LogWritePanics(s.log, size)
    requires WithinBudget(s, LogWrite(op, b))
    ensures Inv(Step(s, size, LogWrite(op, b)).s)
  {
    hide Of, Logged, Distinct;
    LoggedDistinct(s.log, b);
    assert op in s.ops && s.ops != {};
    var s' := Step(s, size, LogWrite(op, b)).s;
    if (op, b) in s.used {
      assert s'.used == s.used && s' == s;
    } else {
      assert |s'.used| == |s.used| + 1;
      forall q | q in s'.ops ensures |Of(s'.used, q)| <= MAXOPBLOCKS {
        OfAdded(s.used, op, b, q);
      }
    }
  }

  lemma EndKeepsInv(s: State, size: int, op: nat)
    requires Inv(s) && op in s.ops
    ensures Step(s, size, EndOp(op)).Running? && Inv(Step(s, size, EndOp(op)).s)
  {
    var s' := Step(s, size, EndOp(op)).s;
    assert |s.ops| == |s'.ops| + 1;
    assert |s.used| == |s'.used| + |Of(s.used, op)|;
    forall q | q in s'.ops ensures |Of(s'.used, q)| <= MAXOPBLOCKS {
      assert Of(s'.used, q) == Of(s.used, q);
    }
    if s'.log.committing { assert s'.ops == {}; }
  }

  lemma BeginKeepsInv(s: State, op: nat)
    requires Inv(s) && op !in s.ops && MayBegin(s.log)
    ensures Inv(s.(log := Begun(s.log), ops := s.ops + {op}))
  {
    UsedBound(s.ops, s.used);
    assert Of(s.used, op) == {};
    assert |s.ops + {op}| == |s.ops| + 1;
  }

  /** Every step keeps the invariant, and the only panic left is a full log. */
  lemma StepKeepsInv(s: State, size: int, a: Act)
    requires Inv(s) && WithinBudget(s, a)
    ensures match Step(s, size, a)
            case Running(s') => Inv(s')
            case Panicked => a.LogWrite? && (|s.log.blocks| == LOGSIZE || |s.log.blocks| >= size - 1)
  {
    match a
    case BeginOp(op) => if op !in s.ops && MayBegin(s.log) { BeginKeepsInv(s, op); }
    case LogWrite(op, b) =>
      if op in s.ops {
        SpareSlot(s, op);
        if !LogWritePanics(s.log, size) { LogWriteKeepsInv(s, size, op, b); }
      }
    case EndOp(op) => if op in s.ops { EndKeepsInv(s, size, op); }
    case FinishCommit =>
      if s.log.committing {
        assert forall p :: p !in s.used;
        assert s.used == {};
      }
  }

  /** The header after further blocks are logged, one after the other. */
  function LoggedAll(h: Header, q: seq<nat>): Header {
    if q == [] then h else Logged(LoggedAll(h, q[..|q| - 1]), q[|q| - 1])
  }

  lemma {:induction false} LoggedFresh(h: Header, q: seq<nat>)
    requires Distinct(q) && forall b :: b in q ==> b !in h.blocks
    ensures LoggedAll(h, q).blocks == h.blocks + q
  {
    if q == [] {
      assert h.blocks + q == h.blocks;
    } else {
      var n := |q| - 1;
      LoggedFresh(h, q[..n]);
      assert h.blocks + q == h.blocks + q[..n] + [q[n]];
    }
  }

  /** `begin_op` lets an operation in exactly when no commit is running and the log would hold a full allowance of
      new blocks for it and for every operation that is outstanding. */
  lemma AdmitsExactlyWhatFits(h: Header, q: seq<nat>)
    requires Distinct(q) && (forall b :: b in q ==> b !in h.blocks) && |q| == (h.outstanding + 1) * MAXOPBLOCKS
    ensures MayBegin(h) <==> !h.committing && |LoggedAll(h, q).blocks| <= LOGSIZE
  {
    LoggedFresh(h, q);
  }

  // ----- Whole runs -----

  /** In every run, blocks that no operation is still working on are being committed. */
  lemma {:induction false} QuietLogIsEmpty(s: State, size: int, acts: seq<Act>)
    requires Inv(s) && AlwaysWithinBudget(s, size, acts) && Exec(s, size, acts).Running?
    ensures var s' := Exec(s, size, acts).s;
            s'.ops == {} && s'.log.blocks != [] ==> s'.log.committing
    decreases |acts|
  {
    if acts != [] {
      StepKeepsInv(s, size, acts[0]);
      QuietLogIsEmpty(Step(s, size, acts[0]).s, size, acts[1..]);
    }
  }

  lemma {:induction false} SpareRunsSafe(s: State, size: int, acts: seq<Act>)
    requires Inv(s) && size > LOGSIZE && AlwaysSpare(s, size, acts)
    ensures Exec(s, size, acts).Running? && Inv(Exec(s, size, acts).s)
    decreases |acts|
  {
    if acts != [] {
      var a := acts[0];
      if a.LogWrite? {
        assert |Of(s.used, a.op) + {(a.op, a.b)}| <= |Of(s.used, a.op)| + 1;
        SpareSlot(s, a.op);
      }
      StepKeepsInv(s, size, a);
      SpareRunsSafe(Step(s, size, a).s, size, acts[1..]);
    }
  }

  /** The state after three operations begin and log `k` different blocks, ten each. */
  function Filled(k: nat): State {
    State(Header(seq(k, i => i), 3, false), {0, 1, 2}, set i: nat | i < k :: (i / MAXOPBLOCKS, i))
  }

  function Fill(k: nat, upto: int): seq<Act>
    decreases upto - k
  {
    if k >= upto then [] else [LogWrite(k / MAXOPBLOCKS, k)] + Fill(k + 1, upto)
  }

  lemma FilledOf(k: nat, op: nat)
    requires k <= LOGSIZE
    ensures Of(Filled(k).used, op) ==
            set i: nat | MAXOPBLOCKS * op <= i < MAXOPBLOCKS * op + MAXOPBLOCKS && i < k :: (op, i)
  {
    var range := set i: nat | MAXOPBLOCKS * op <= i < MAXOPBLOCKS * op + MAXOPBLOCKS && i < k :: (op, i);
    forall p ensures p in Of(Filled(k).used, op) <==> p in range {
      assert p.1 / MAXOPBLOCKS == op <==> MAXOPBLOCKS * op <= p.1 < MAXOPBLOCKS * op + MAXOPBLOCKS;
    }
  }

  lemma {:induction false} RangeCard(op: nat, lo: nat, hi: nat)
    requires lo <= hi
    ensures |set i: nat | lo <= i < hi :: (op, i)| == hi - lo
    decreases hi - lo
  {
    var r := set i: nat | lo <= i < hi :: (op, i);
    if lo < hi {
      RangeCard(op, lo, hi - 1);
      assert r == (set i: nat | lo <= i < hi - 1 :: (op, i)) + {(op, hi - 1)};
    } else {
      assert r == {};
    }
  }

  /** How many blocks operation `op` has logged in `Filled(k)`. */
  lemma FilledCard(k: nat, op: nat)
    requires k <= LOGSIZE && MAXOPBLOCKS * op <= k
    ensures |Of(Filled(k).used, op)| ==
            if k < MAXOPBLOCKS * op + MAXOPBLOCKS then k - MAXOPBLOCKS * op else MAXOPBLOCKS
  {
    FilledOf(k, op);
    var hi := if k < MAXOPBLOCKS * op + MAXOPBLOCKS then k else MAXOPBLOCKS * op + MAXOPBLOCKS;
    RangeCard(op, MAXOPBLOCKS * op, hi);
    assert (set i: nat | MAXOPBLOCKS * op <= i < MAXOPBLOCKS * op + MAXOPBLOCKS && i < k :: (op, i)) ==
           (set i: nat | MAXOPBLOCKS * op <= i < hi :: (op, i));
  }

  /** A run that starts with a step that has allowance left. */
  lemma FirstStep(s: State, size: int, a: Act, s': State, rest: seq<Act>)
    requires Step(s, size, a) == Running(s') && HasSpare(s, a)
    ensures Exec(s, size, [a] + rest) == Exec(s', size, rest)
    ensures AlwaysSpare(s', size, rest) ==> AlwaysSpare(s, size, [a] + rest)
    ensures AlwaysWithinBudget(s', size, rest) ==> AlwaysWithinBudget(s, size, [a] + rest)
  {
    var acts := [a] + rest;
    assert acts[0] == a && acts[1..] == rest;
    if a.LogWrite? {
      assert |Of(s.used, a.op) + {(a.op, a.b)}| <= |Of(s.used, a.op)| + 1;
    }
  }

  lemma FillStep(k: nat, size: int)
    requires k < LOGSIZE && k < size - 1
    ensures Step(Filled(k), size, LogWrite(k / MAXOPBLOCKS, k)) == Running(Filled(k + 1))
    ensures HasSpare(Filled(k), LogWrite(k / MAXOPBLOCKS, k))
  {
    FilledCard(k, k / MAXOPBLOCKS);
    assert Filled(k).log.blocks + [k] == Filled(k + 1).log.blocks;
    assert Filled(k).used + {(k / MAXOPBLOCKS, k)} == Filled(k + 1).used;
  }

  lemma {:induction false} FillRuns(k: nat, upto: nat, size: int, tail: seq<Act>)
    requires k <= upto <= LOGSIZE && upto <= (if size >= 1 then size - 1 else 0)
    ensures Exec(Filled(k), size, Fill(k, upto) + tail) == Exec(Filled(upto), size, tail)
    ensures AlwaysSpare(Filled(upto), size, tail) ==> AlwaysSpare(Filled(k), size, Fill(k, upto) + tail)
    ensures AlwaysWithinBudget(Filled(upto), size, tail) ==>
              AlwaysWithinBudget(Filled(k), size, Fill(k, upto) + tail)
    decreases upto - k
  {
    hide Exec, AlwaysSpare, AlwaysWithinBudget, Step, HasSpare, Filled;
    if k == upto {
      assert Fill(k, upto) + tail == tail;
    } else {
      FillStep(k, size);
      FillRuns(k + 1, upto, size, tail);
      var a := LogWrite(k / MAXOPBLOCKS, k);
      FirstStep(Filled(k), size, a, Filled(k + 1), Fill(k + 1, upto) + tail);
      assert Fill(k, upto) + tail == [a] + (Fill(k + 1, upto) + tail);
    }
  }

  const BEGINS := [BeginOp(0), BeginOp(1), BeginOp(2)]

  lemma BeginsRun(size: int, tail: seq<Act>)
    ensures Exec(INIT, size, BEGINS + tail) == Exec(Filled(0), size, tail)
    ensures AlwaysSpare(Filled(0), size, tail) ==> AlwaysSpare(INIT, size, BEGINS + tail)
    ensures AlwaysWithinBudget(Filled(0), size, tail) ==> AlwaysWithinBudget(INIT, size, BEGINS + tail)
  {
    hide Exec, AlwaysSpare, AlwaysWithinBudget;
    var s1 := Step(INIT, size, BeginOp(0)).s;
    var s2 := Step(s1, size, BeginOp(1)).s;
    assert Step(s2, size, BeginOp(2)).s == Filled(0);
    FirstStep(s2, size, BeginOp(2), Filled(0), tail);
    FirstStep(s1, size, BeginOp(1), s2, [BeginOp(2)] + tail);
    FirstStep(INIT, size, BeginOp(0), s1, [BeginOp(1)] + ([BeginOp(2)] + tail));
    assert BEGINS + tail == [BeginOp(0)] + ([BeginOp(1)] + ([BeginOp(2)] + tail));
  }

  ghost predicate Safe(size: int) {
    forall acts :: AlwaysSpare(INIT, size, acts) ==> Exec(INIT, size, acts).Running?
  }

  /** Three operations overrun any log of at most LOGSIZE blocks. */
  lemma SmallLogPanics(size: int) returns (acts: seq<Act>)
    requires size <= LOGSIZE
    ensures AlwaysSpare(INIT, size, acts) && Exec(INIT, size, acts).Panicked?
  {
    var k := if size >= 1 then size - 1 else 0;
    var last := [LogWrite(k / MAXOPBLOCKS, k)];
    FilledCard(k, k / MAXOPBLOCKS);
    assert Exec(Filled(k), size, last).Panicked? && AlwaysSpare(Filled(k), size, last);
    hide Exec, AlwaysSpare, Filled;
    FillRuns(0, k, size, last);
    acts := BEGINS + (Fill(0, k) + last);
    BeginsRun(size, Fill(0, k) + last);
  }

  /** For operations that stop logging once their allowance is used, `log_write` never panics
      exactly when the on-disk log is larger than LOGSIZE. The layout that mkfs/mkfs.c writes has
      `nlog == LOGSIZE`, which is one block too few. */
  lemma SafeExactlyWhenLogIsLarger(size: int)
    ensures Safe(size) <==> size > LOGSIZE
  {
    if size > LOGSIZE {
      forall acts | AlwaysSpare(INIT, size, acts) ensures Exec(INIT, size, acts).Running? {
        SpareRunsSafe(INIT, size, acts);
      }
    } else {
      var acts := SmallLogPanics(size);
    }
  }

  /** The weaker discipline of logging at most MAXOPBLOCKS distinct blocks does not suffice at any
      size: three operations fill the log and one of them logs one of its own blocks again. */
  lemma DistinctBudgetIsNotEnough(size: int)
    requires size > LOGSIZE
    ensures exists acts :: AlwaysWithinBudget(INIT, size, acts) && Exec(INIT, size, acts).Panicked?
  {
    var again := [LogWrite(0, 0)];
    var full := Filled(LOGSIZE);
    FilledCard(LOGSIZE, 0);
    assert (0 / MAXOPBLOCKS, 0) in full.used;
    assert Of(full.used, 0) + {(0, 0)} == Of(full.used, 0);
    FillRuns(0, LOGSIZE, size, again);
    var acts := BEGINS + (Fill(0, LOGSIZE) + again);
    BeginsRun(size, Fill(0, LOGSIZE) + again);
    assert AlwaysWithinBudget(INIT, size, acts) && Exec(INIT, size, acts).Panicked?;
  }

  /** Under the weaker discipline the panic needs every outstanding operation to have spent its
      whole allowance, so one operation with allowance left rules it out for all of them. */
  lemma PanicNeedsAllSpent(s: State, size: int, op: nat, b: nat)
    requires Inv(s) && size > LOGSIZE && op in s.ops
    ensures Step(s, size, LogWrite(op, b)).Panicked? <==> |s.log.blocks| == LOGSIZE
    ensures Step(s, size, LogWrite(op, b)).Panicked? ==>
              forall q :: q in s.ops ==> |Of(s.used, q)| == MAXOPBLOCKS
  {
    forall q | q in s.ops ensures |s.log.blocks| == LOGSIZE ==> |Of(s.used, q)| == MAXOPBLOCKS {
      SpareSlot(s, q);
    }
    SpareSlot(s, op);
  }

  /** While a commit runs, no step of any operation changes the logged block list. */
  lemma CommitUndisturbed(s: State, size: int, a: Act)
    requires Inv(s) && s.log.committing && a != FinishCommit
    ensures Step(s, size, a) == Running(s)
  {
  }
}
