/** Crash atomicity of the redo log of kernel/log.c.

    The disk is a sequence of blocks that are written atomically, one at a time. A block is a
    sequence of 32-bit words. A transaction is the list of block writes that `commit` issues; a crash
    keeps a prefix of that list, and a crash during recovery keeps a prefix of recovery's own list. */
module Wal {
  import opened Common
  import opened LogSpace

  const WORDS: nat := 256 // BSIZE / sizeof(int)

  type Block = seq<nat>
  type Disk = seq<Block>

  /** `log.start` and `log.size`: the header block is first in the log area, the slots follow. */
  datatype Layout = Layout(start: nat, size: nat)

  predicate InLog(l: Layout, a: int) {
    l.start <= a < l.start + l.size
  }

  predicate Home(l: Layout, blocks: nat, a: int) {
    0 <= a < blocks && !InLog(l, a)
  }

  ghost predicate Fits(l: Layout, d: Disk) {
    && 0 < l.size
    && l.start + l.size <= |d|
    && forall a :: 0 <= a < |d| ==> |d[a]| == WORDS
  }

  /** A list of block numbers that `log_write` may have collected. */
  ghost predicate Loggable(l: Layout, blocks: nat, t: seq<nat>) {
    && |t| <= LOGSIZE
    && |t| < l.size
    && Distinct(t)
    && forall i :: 0 <= i < |t| ==> Home(l, blocks, t[i])
  }

  /** The block numbers recorded in a header block. */
  function Targets(h: Block): seq<nat>
    requires |h| == WORDS && h[0] <= LOGSIZE
  {
    h[1..1 + h[0]]
  }

  ghost predicate Sound(l: Layout, d: Disk) {
    && Fits(l, d)
    && d[l.start][0] <= LOGSIZE
    && Loggable(l, |d|, Targets(d[l.start]))
  }

  /** The home blocks that `d` stands for are those of `s`: logged blocks are taken from their slots
      and the others from their own place. */
  ghost predicate Recovers(l: Layout, d: Disk, s: Disk) {
    && |d| == |s|
    && Sound(l, d)
    && (var t := Targets(d[l.start]);
        && (forall i :: 0 <= i < |t| ==> d[l.start + 1 + i] == s[t[i]])
        && (forall a {:trigger Home(l, |d|, a)} :: Home(l, |d|, a) && a !in t ==> d[a] == s[a]))
  }

  ghost predicate Clear(l: Layout, d: Disk) {
    Sound(l, d) && d[l.start][0] == 0
  }

  /** What `write_head` stores over the header block `h`: the count and the numbers, leaving the
      words behind them alone. */
  function Head(h: Block, t: seq<nat>): Block
    requires |h| == WORDS && |t| <= LOGSIZE
  {
    [|t|] + t + h[1 + |t|..]
  }

  // ----- What one block write does -----

  lemma SlotWrite(l: Layout, d: Disk, s: Disk, a: nat, v: Block)
    requires Recovers(l, d, s) && Clear(l, d)
    requires l.start < a < l.start + l.size && |v| == WORDS
    ensures Recovers(l, d[a := v], s) && Clear(l, d[a := v])
  {
    assert d[a := v][l.start] == d[l.start];
    forall b | Home(l, |d[a := v]|, b) ensures d[a := v][b] == s[b] { assert Home(l, |d|, b); }
  }

  /** The commit point: writing the header replaces the recovered state by the new one. */
  lemma HeadWrite(l: Layout, d: Disk, s: Disk, s': Disk, t: seq<nat>)
    requires Recovers(l, d, s) && Clear(l, d) && Loggable(l, |d|, t) && |s'| == |s|
    requires forall i :: 0 <= i < |t| ==> d[l.start + 1 + i] == s'[t[i]]
    requires forall a {:trigger Home(l, |d|, a)} :: Home(l, |d|, a) && a !in t ==> s[a] == s'[a]
    ensures Recovers(l, d[l.start := Head(d[l.start], t)], s')
  {
    var d' := d[l.start := Head(d[l.start], t)];
    assert Targets(d'[l.start]) == t;
  }

  lemma InstallWrite(l: Layout, d: Disk, s: Disk, i: nat)
    requires Recovers(l, d, s) && i < d[l.start][0]
    ensures Recovers(l, d[Targets(d[l.start])[i] := d[l.start + 1 + i]], s)
  {
    var t := Targets(d[l.start]);
    var d' := d[t[i] := d[l.start + 1 + i]];
    assert Home(l, |d|, t[i]) && d'[l.start] == d[l.start];
  }

  lemma ClearWrite(l: Layout, d: Disk, s: Disk)
    requires Recovers(l, d, s)
    requires var t := Targets(d[l.start]); forall i :: 0 <= i < |t| ==> d[t[i]] == s[t[i]]
    ensures Recovers(l, d[l.start := d[l.start][0 := 0]], s)
    ensures Clear(l, d[l.start := d[l.start][0 := 0]])
  {
    var t := Targets(d[l.start]);
    var d' := d[l.start := d[l.start][0 := 0]];
    assert Targets(d'[l.start]) == [];
    forall a | Home(l, |d'|, a) ensures d'[a] == s[a] {
      assert Home(l, |d|, a);
      if a in t { var i :| 0 <= i < |t| && t[i] == a; }
    }
  }

  // ----- Lists of block writes -----

  datatype Write = Write(addr: nat, data: Block)

  /** The disk after the writes, in order. */
  function Apply(d: Disk, ws: seq<Write>): (e: Disk)
    ensures |e| == |d|
  {
    if ws == [] then d
    else
      var e := Apply(d, ws[..|ws| - 1]);
      var w := ws[|ws| - 1];
      if w.addr < |e| then e[w.addr := w.data] else e
  }

  lemma ApplyNone(d: Disk)
    ensures Apply(d, []) == d
  {
  }

  lemma ApplyOne(d: Disk, ws: seq<Write>, w: Write)
    requires w.addr < |Apply(d, ws)|
    ensures Apply(d, ws + [w]) == Apply(d, ws)[w.addr := w.data]
  {
    assert (ws + [w])[..|ws|] == ws;
  }

  lemma {:induction false} ApplyConcat(d: Disk, a: seq<Write>, b: seq<Write>)
    ensures Apply(d, a + b) == Apply(Apply(d, a), b)
    decreases |b|
  {
    if b == [] {
      assert a + b == a;
    } else {
      ApplyConcat(d, a, b[..|b| - 1]);
      assert (a + b)[..|a + b| - 1] == a + b[..|b| - 1];
    }
  }

  /** The writes of `write_log`: every logged block into its slot. */
  function SlotWrites(l: Layout, vals: seq<Block>): seq<Write> {
    seq(|vals|, i requires 0 <= i < |vals| => Write(l.start + 1 + i, vals[i]))
  }

  /** The writes of `install_trans`: every slot to its home. */
  function InstallWrites(t: seq<nat>, vals: seq<Block>): seq<Write>
    requires |vals| == |t|
  {
    seq(|t|, i requires 0 <= i < |t| => Write(t[i], vals[i]))
  }

  function HeadWrites(l: Layout, h: Block, t: seq<nat>): seq<Write>
    requires |h| == WORDS && |t| <= LOGSIZE
  {
    [Write(l.start, Head(h, t))]
  }

  /** Everything `commit` writes for a nonempty transaction. */
  function CommitWrites(l: Layout, h: Block, t: seq<nat>, vals: seq<Block>): seq<Write>
    requires |h| == WORDS && |t| <= LOGSIZE && |vals| == |t|
  {
    SlotWrites(l, vals) + HeadWrites(l, h, t) + InstallWrites(t, vals)
    + HeadWrites(l, Head(h, t), [])
  }

  function Slots(l: Layout, d: Disk, n: nat): seq<Block>
    requires l.start + 1 + n <= |d|
  {
    d[l.start + 1..l.start + 1 + n]
  }

  /** Everything `recover_from_log` writes. */
  ghost function RecoveryWrites(l: Layout, d: Disk): seq<Write>
    requires Sound(l, d)
  {
    var t := Targets(d[l.start]);
    InstallWrites(t, Slots(l, d, |t|)) + HeadWrites(l, d[l.start], [])
  }

  ghost function Recovered(l: Layout, d: Disk): Disk
    requires Sound(l, d)
  {
    Apply(d, RecoveryWrites(l, d))
  }

  // ----- Images of the disk at a crash -----

  /** `e` is `d` with the first `k` logged blocks brought home. */
  ghost predicate PartlyInstalled(l: Layout, d: Disk, s: Disk, k: nat, e: Disk)
    requires Sound(l, d) && k <= d[l.start][0]
  {
    var t := Targets(d[l.start]);
    && Recovers(l, e, s)
    && (forall a :: InLog(l, a) ==> e[a] == d[a])
    && (forall i :: 0 <= i < k ==> e[t[i]] == s[t[i]])
  }

  lemma InstallNext(l: Layout, d: Disk, s: Disk, k: nat, e: Disk)
    requires Recovers(l, d, s) && k < d[l.start][0] && PartlyInstalled(l, d, s, k, e)
    ensures PartlyInstalled(l, d, s, k + 1, e[Targets(d[l.start])[k] := d[l.start + 1 + k]])
  {
    var t := Targets(d[l.start]);
    assert InLog(l, l.start) && InLog(l, l.start + 1 + k);
    assert Home(l, |d|, t[k]);
    InstallWrite(l, e, s, k);
  }

  lemma NoneInstalled(l: Layout, d: Disk, s: Disk)
    requires Recovers(l, d, s)
    ensures PartlyInstalled(l, d, s, 0, d)
  {
  }

  /** After `k` of the installs, with the header in place. */
  lemma {:induction false} InstallPrefix(l: Layout, d: Disk, s: Disk, k: nat)
    requires Sound(l, d) && Recovers(l, d, s) && k <= d[l.start][0]
    ensures var t := Targets(d[l.start]);
            PartlyInstalled(l, d, s, k, Apply(d, InstallWrites(t, Slots(l, d, |t|))[..k]))
    decreases k
  {
    hide Recovers, PartlyInstalled, Distinct;
    var t := Targets(d[l.start]);
    var ws := InstallWrites(t, Slots(l, d, |t|));
    if k > 0 {
      InstallPrefix(l, d, s, k - 1);
      var e := Apply(d, ws[..k - 1]);
      assert ws[..k][..k - 1] == ws[..k - 1];
      assert Home(l, |d|, t[k - 1]);
      InstallNext(l, d, s, k - 1, e);
    } else {
      NoneInstalled(l, d, s);
    }
  }

  /** The last write of recovery empties the log. */
  lemma RecoveryEnd(l: Layout, d: Disk, s: Disk)
    requires Sound(l, d) && Recovers(l, d, s)
    ensures Recovers(l, Recovered(l, d), s) && Clear(l, Recovered(l, d))
  {
    var t := Targets(d[l.start]);
    var ws := InstallWrites(t, Slots(l, d, |t|));
    InstallPrefix(l, d, s, |t|);
    assert ws[..|t|] == ws;
    var e := Apply(d, ws);
    assert InLog(l, l.start);
    ApplyOne(d, ws, Write(l.start, Head(d[l.start], [])));
    assert Head(d[l.start], []) == d[l.start][0 := 0];
    ClearWrite(l, e, s);
  }

  /** A crash after any number of recovery's writes changes nothing of what the disk stands for. */
  lemma RecoveryPrefix(l: Layout, d: Disk, s: Disk, k: nat)
    requires Sound(l, d) && Recovers(l, d, s) && k <= |RecoveryWrites(l, d)|
    ensures Recovers(l, Apply(d, RecoveryWrites(l, d)[..k]), s)
    ensures k == |RecoveryWrites(l, d)| ==> Clear(l, Apply(d, RecoveryWrites(l, d)[..k]))
  {
    var t := Targets(d[l.start]);
    var all := RecoveryWrites(l, d);
    if k <= |t| {
      InstallPrefix(l, d, s, k);
      assert all[..k] == InstallWrites(t, Slots(l, d, |t|))[..k];
      assert k < |all|;
    } else {
      RecoveryEnd(l, d, s);
      assert all[..k] == all;
    }
  }

  /** The state a transaction aims for. */
  ghost predicate Updated(l: Layout, s: Disk, t: seq<nat>, vals: seq<Block>, s': Disk) {
    && |s'| == |s| && |vals| == |t|
    && (forall i :: 0 <= i < |t| ==> t[i] < |s| && s'[t[i]] == vals[i] && |vals[i]| == WORDS)
    && (forall a {:trigger Home(l, |s|, a)} :: Home(l, |s|, a) && a !in t ==> s'[a] == s[a])
  }

  /** After `k` of the slots. */
  lemma {:induction false} SlotPrefix(l: Layout, d: Disk, s: Disk, vals: seq<Block>, k: nat)
    requires Recovers(l, d, s) && Clear(l, d)
    requires |vals| < l.size && forall i :: 0 <= i < |vals| ==> |vals[i]| == WORDS
    requires k <= |vals|
    ensures var e := Apply(d, SlotWrites(l, vals)[..k]);
            && Recovers(l, e, s) && Clear(l, e) && e[l.start] == d[l.start]
            && (forall i :: 0 <= i < k ==> e[l.start + 1 + i] == vals[i])
    decreases k
  {
    var ws := SlotWrites(l, vals);
    if k > 0 {
      SlotPrefix(l, d, s, vals, k - 1);
      assert ws[..k][..k - 1] == ws[..k - 1];
      SlotWrite(l, Apply(d, ws[..k - 1]), s, l.start + k, vals[k - 1]);
    }
  }

  /** The disk right after the header is on it. */
  ghost function CommitPoint(l: Layout, d: Disk, t: seq<nat>, vals: seq<Block>): Disk
    requires Fits(l, d) && |t| <= LOGSIZE && |vals| == |t|
  {
    Apply(d, SlotWrites(l, vals) + HeadWrites(l, d[l.start], t))
  }

  /** The header goes over the filled slots. */
  lemma NewHeader(l: Layout, d: Disk, e: Disk, s: Disk, t: seq<nat>, vals: seq<Block>, s': Disk)
    requires Recovers(l, e, s) && Clear(l, e) && Fits(l, d) && |d| == |e| && e[l.start] == d[l.start]
    requires Loggable(l, |d|, t) && Updated(l, s, t, vals, s')
    requires forall i :: 0 <= i < |t| ==> e[l.start + 1 + i] == vals[i]
    ensures var e' := e[l.start := Head(d[l.start], t)];
            && Recovers(l, e', s') && Targets(e'[l.start]) == t && Slots(l, e', |t|) == vals
  {
    hide Apply, Distinct;
    forall a | Home(l, |e|, a) && a !in t ensures s[a] == s'[a] { assert Home(l, |s|, a); }
    HeadWrite(l, e, s, s', t);
    assert Targets(Head(d[l.start], t)) == t;
  }

  lemma AtCommitPoint(l: Layout, d: Disk, s: Disk, t: seq<nat>, vals: seq<Block>, s': Disk)
    requires Recovers(l, d, s) && Clear(l, d) && Loggable(l, |d|, t) && Updated(l, s, t, vals, s')
    ensures var e := CommitPoint(l, d, t, vals);
            && Recovers(l, e, s') && e[l.start] == Head(d[l.start], t)
            && Targets(e[l.start]) == t && Slots(l, e, |t|) == vals
  {
    var ws := SlotWrites(l, vals);
    SlotPrefix(l, d, s, vals, |t|);
    assert ws[..|t|] == ws;
    var e := Apply(d, ws);
    ApplyOne(d, ws, Write(l.start, Head(d[l.start], t)));
    NewHeader(l, d, e, s, t, vals, s');
  }

  /** From the commit point on, `commit` does what recovery would do. */
  lemma CommitIsRecovery(l: Layout, d: Disk, s: Disk, t: seq<nat>, vals: seq<Block>, s': Disk)
    requires Recovers(l, d, s) && Clear(l, d) && Loggable(l, |d|, t) && Updated(l, s, t, vals, s')
    ensures var e := CommitPoint(l, d, t, vals);
            && Sound(l, e)
            && CommitWrites(l, d[l.start], t, vals) ==
               SlotWrites(l, vals) + HeadWrites(l, d[l.start], t) + RecoveryWrites(l, e)
  {
    AtCommitPoint(l, d, s, t, vals, s');
    var e := CommitPoint(l, d, t, vals);
    assert RecoveryWrites(l, e) == InstallWrites(t, vals) + HeadWrites(l, Head(d[l.start], t), []);
  }

  lemma RecoveryTail(l: Layout, d: Disk, s: Disk, pre: seq<Write>, all: seq<Write>, k: nat)
    requires Sound(l, Apply(d, pre)) && Recovers(l, Apply(d, pre), s)
    requires all == pre + RecoveryWrites(l, Apply(d, pre)) && k <= |RecoveryWrites(l, Apply(d, pre))|
    ensures Recovers(l, Apply(d, all[..|pre| + k]), s)
    ensures |pre| + k == |all| ==> Clear(l, Apply(d, all[..|pre| + k]))
  {
    var e := Apply(d, pre);
    var rest := RecoveryWrites(l, e);
    assert all[..|pre| + k] == pre + rest[..k];
    ApplyConcat(d, pre, rest[..k]);
    RecoveryPrefix(l, e, s, k);
  }

  lemma CommitBefore(l: Layout, d: Disk, s: Disk, t: seq<nat>, vals: seq<Block>, k: nat)
    requires Recovers(l, d, s) && Clear(l, d) && Loggable(l, |d|, t) && |vals| == |t|
    requires k <= |t| && forall i :: 0 <= i < |vals| ==> |vals[i]| == WORDS
    ensures Recovers(l, Apply(d, CommitWrites(l, d[l.start], t, vals)[..k]), s)
  {
    SlotPrefix(l, d, s, vals, k);
    assert CommitWrites(l, d[l.start], t, vals)[..k] == SlotWrites(l, vals)[..k];
  }

  lemma FromCommitPoint(l: Layout, d: Disk, t: seq<nat>, vals: seq<Block>, s': Disk, k: nat)
    requires Fits(l, d) && |t| <= LOGSIZE && |vals| == |t|
    requires var e := CommitPoint(l, d, t, vals);
             && Sound(l, e) && Recovers(l, e, s')
             && CommitWrites(l, d[l.start], t, vals) ==
                SlotWrites(l, vals) + HeadWrites(l, d[l.start], t) + RecoveryWrites(l, e)
    requires |t| < k <= |CommitWrites(l, d[l.start], t, vals)|
    ensures Recovers(l, Apply(d, CommitWrites(l, d[l.start], t, vals)[..k]), s')
    ensures k == |CommitWrites(l, d[l.start], t, vals)| ==>
              Clear(l, Apply(d, CommitWrites(l, d[l.start], t, vals)[..k]))
  {
    hide Recovers, Sound, Apply, Clear, CommitWrites, RecoveryWrites, Head;
    var pre := SlotWrites(l, vals) + HeadWrites(l, d[l.start], t);
    assert |pre| == |t| + 1;
    hide Fits, SlotWrites, HeadWrites;
    RecoveryTail(l, d, s', pre, CommitWrites(l, d[l.start], t, vals), k - |pre|);
  }

  lemma CommitAfter(l: Layout, d: Disk, s: Disk, t: seq<nat>, vals: seq<Block>, s': Disk, k: nat)
    requires Recovers(l, d, s) && Clear(l, d) && Loggable(l, |d|, t) && Updated(l, s, t, vals, s')
    requires |t| < k <= |CommitWrites(l, d[l.start], t, vals)|
    ensures Recovers(l, Apply(d, CommitWrites(l, d[l.start], t, vals)[..k]), s')
    ensures k == |CommitWrites(l, d[l.start], t, vals)| ==>
              Clear(l, Apply(d, CommitWrites(l, d[l.start], t, vals)[..k]))
  {
    hide Apply, CommitWrites, SlotWrites, HeadWrites, RecoveryWrites, Distinct, Home, CommitPoint;
    AtCommitPoint(l, d, s, t, vals, s');
    CommitIsRecovery(l, d, s, t, vals, s');
    FromCommitPoint(l, d, t, vals, s', k);
  }

  /** A crash after the first `k` writes of `commit` leaves a disk that stands for the old state up
      to the slots, and for the new state from the header on. */
  lemma CommitPrefix(l: Layout, d: Disk, s: Disk, t: seq<nat>, vals: seq<Block>, s': Disk, k: nat)
    requires Recovers(l, d, s) && Clear(l, d) && Loggable(l, |d|, t) && Updated(l, s, t, vals, s')
    requires k <= |CommitWrites(l, d[l.start], t, vals)|
    ensures Recovers(l, Apply(d, CommitWrites(l, d[l.start], t, vals)[..k]), if k <= |t| then s else s')
    ensures k == |CommitWrites(l, d[l.start], t, vals)| ==>
              Clear(l, Apply(d, CommitWrites(l, d[l.start], t, vals)[..k]))
  {
    if k <= |t| {
      CommitBefore(l, d, s, t, vals, k);
    } else {
      CommitAfter(l, d, s, t, vals, s', k);
    }
  }

  // ----- Crash atomicity -----

  /** Each disk of the chain is what a crash somewhere inside recovery left of the one before. */
  ghost predicate CrashChain(l: Layout, ds: seq<Disk>) {
    && ds != []
    && forall i, j :: 0 <= i && j == i + 1 < |ds| ==> InterruptedRecovery(l, ds[i], ds[j])
  }

  ghost predicate InterruptedRecovery(l: Layout, d: Disk, e: Disk) {
    Sound(l, d) &&
    exists k: nat :: k <= |RecoveryWrites(l, d)| && e == Apply(d, RecoveryWrites(l, d)[..k])
  }

  lemma {:induction false} ChainRecovers(l: Layout, ds: seq<Disk>, s: Disk)
    requires CrashChain(l, ds) && Recovers(l, ds[0], s)
    ensures Recovers(l, ds[|ds| - 1], s)
    decreases |ds|
  {
    if |ds| > 1 {
      assert InterruptedRecovery(l, ds[0], ds[1]);
      var k: nat :| k <= |RecoveryWrites(l, ds[0])| && ds[1] == Apply(ds[0], RecoveryWrites(l, ds[0])[..k]);
      RecoveryPrefix(l, ds[0], s, k);
      var rest := ds[1..];
      forall i, j | 0 <= i && j == i + 1 < |rest| ensures InterruptedRecovery(l, rest[i], rest[j]) {
        assert rest[i] == ds[i + 1] && rest[j] == ds[j + 1];
      }
      ChainRecovers(l, rest, s);
    }
  }

  /** Completed recovery leaves exactly the state the disk stood for, and an empty log. */
  lemma RecoveryCompletes(l: Layout, d: Disk, s: Disk)
    requires Recovers(l, d, s)
    ensures var f := Recovered(l, d); Clear(l, f) && forall a :: Home(l, |f|, a) ==> f[a] == s[a]
  {
    var ws := RecoveryWrites(l, d);
    RecoveryPrefix(l, d, s, |ws|);
    assert ws[..|ws|] == ws;
  }

  /** Running recovery again changes nothing on the disk. */
  lemma RecoveryIdempotent(l: Layout, d: Disk)
    requires Clear(l, d)
    ensures Recovered(l, d) == d
  {
    var h := Head(d[l.start], []);
    assert h == d[l.start];
    assert RecoveryWrites(l, d) == [] + [Write(l.start, h)];
    ApplyOne(d, [], Write(l.start, h));
  }

  /** Crash atomicity. From a disk with an empty log, `commit` stops after any `k` of its writes;
      recovery is then interrupted any number of times (`ds`) and finally completes. The home blocks
      are all old when `k` is at most the number of slots and all new otherwise. */
  lemma CrashAtomicity(l: Layout, d: Disk, t: seq<nat>, vals: seq<Block>, k: nat, ds: seq<Disk>, s': Disk)
    requires Clear(l, d) && Loggable(l, |d|, t) && Updated(l, d, t, vals, s')
    requires k <= |CommitWrites(l, d[l.start], t, vals)|
    requires CrashChain(l, ds) && ds[0] == Apply(d, CommitWrites(l, d[l.start], t, vals)[..k])
    ensures Sound(l, ds[|ds| - 1])
    ensures var f := Recovered(l, ds[|ds| - 1]);
            && Clear(l, f) && Recovered(l, f) == f
            && (forall a :: Home(l, |d|, a) ==> a < |f| && f[a] == if k <= |t| then d[a] else s'[a])
  {
    CommitPrefix(l, d, d, t, vals, s', k);
    var s := if k <= |t| then d else s';
    ChainRecovers(l, ds, s);
    RecoveryCompletes(l, ds[|ds| - 1], s);
    var f := Recovered(l, ds[|ds| - 1]);
    var ws := RecoveryWrites(l, ds[|ds| - 1]);
    assert ws[..|ws|] == ws;
    RecoveryPrefix(l, ds[|ds| - 1], s, |ws|);
    RecoveryIdempotent(l, f);
    forall a | Home(l, |d|, a) ensures Home(l, |f|, a) {}
  }
}
