/** The block layer as one concurrent system: any number of threads reading, changing, logging and
    releasing buffers (kernel/bio.c), operations beginning and ending, and the commit thread writing
    the log (kernel/log.c), in any interleaving, with a crash possible at every step.

    `logical` and `stable` are history variables: the blocks as the file system last logged them, and
    the blocks as of the last commit point. */
module Storage {
  import opened Common
  import opened LogSpace
  import opened Wal
  import B = Bcache

  const DEV: nat := 1 // ROOTDEV

  /** A `bread` in progress: it has a reference, then holds the sleep lock, then is in `brelse`
      between releasing the sleep lock and dropping its reference. */
  datatype Phase = Waiting | Locked | Leaving
  datatype Ref = Ref(buf: nat, blockno: nat, phase: Phase)

  /** Where the commit thread is: `k` slots written, then `k` blocks installed, then log emptied. */
  datatype Pc = Idle | Copying(k: nat) | Installing(k: nat) | Cleared

  datatype Sys = Sys(disk: Disk, cache: B.Cache, refs: map<nat, Ref>, space: LogSpace.State, pc: Pc,
                     logical: Disk, stable: Disk)

  /** Logged blocks not yet installed; `log_write` pinned their buffers. */
  function Pending(s: Sys): seq<nat> {
    match s.pc
    case Installing(k) => if k <= |s.space.log.blocks| then s.space.log.blocks[k..] else []
    case Cleared => []
    case _ => s.space.log.blocks
  }

  // ----- Steps -----

  /** `r` has been returned by `bread` and not yet released: locked and filled. */
  predicate Reading(s: Sys, r: nat) {
    r in s.refs && s.refs[r].phase == Locked && s.refs[r].buf < |s.cache.bufs|
    && s.cache.bufs[s.refs[r].buf].valid
  }

  function Data(s: Sys, r: nat): Block
    requires Reading(s, r)
  {
    s.cache.bufs[s.refs[r].buf].data
  }

  function WithBuf(s: Sys, i: nat, b: B.Buf): Sys
    requires i < |s.cache.bufs|
  {
    s.(cache := s.cache.(bufs := s.cache.bufs[i := b]))
  }

  /** `bget` under bcache.lock. */
  ghost predicate Get(s: Sys, s': Sys, r: nat, b: nat, i: nat) {
    && r !in s.refs && b < |s.disk| && B.WellFormed(s.cache)
    && B.Gets(s.cache, DEV, b, Some(i), s'.cache)
    && s' == s.(cache := s'.cache, refs := s.refs[r := Ref(i, b, Waiting)])
  }

  /** `acquiresleep`. */
  ghost predicate Lock(s: Sys, s': Sys, r: nat) {
    && r in s.refs && s.refs[r].phase == Waiting
    && (forall q :: q in s.refs && s.refs[q].buf == s.refs[r].buf ==> s.refs[q].phase != Locked)
    && s' == s.(refs := s.refs[r := s.refs[r].(phase := Locked)])
  }

  /** The disk read of `bread`. */
  ghost predicate Fill(s: Sys, s': Sys, r: nat) {
    && r in s.refs && s.refs[r].phase == Locked
    && s.refs[r].buf < |s.cache.bufs| && s.refs[r].blockno < |s.disk|
    && var i := s.refs[r].buf;
       && !s.cache.bufs[i].valid
       && s' == WithBuf(s, i, s.cache.bufs[i].(valid := true, data := s.disk[s.refs[r].blockno]))
  }

  /** The holder changes the data and calls `log_write`. */
  ghost predicate Change(l: Layout, s: Sys, s': Sys, r: nat, op: nat, v: Block) {
    && Reading(s, r) && |v| == WORDS
    && var i, b := s.refs[r].buf, s.refs[r].blockno;
       && Home(l, |s.disk|, b) && b < |s.logical|
       && op in s.space.ops && WithinBudget(s.space, LogWrite(op, b))
       && LogSpace.Step(s.space, l.size, LogWrite(op, b)) == Running(s'.space)
       && var pin := if b in s.space.log.blocks then 0 else 1;
          s' == WithBuf(s, i, s.cache.bufs[i].(data := v, refcnt := s.cache.bufs[i].refcnt + pin))
                .(space := s'.space, logical := s.logical[b := v])
  }

  /** `releasesleep` in `brelse`. */
  ghost predicate Unlock(s: Sys, s': Sys, r: nat) {
    && r in s.refs && s.refs[r].phase == Locked
    && s' == s.(refs := s.refs[r := s.refs[r].(phase := Leaving)])
  }

  /** The rest of `brelse`, under bcache.lock. */
  ghost predicate Drop(s: Sys, s': Sys, r: nat) {
    && r in s.refs && s.refs[r].phase == Leaving && B.WellFormed(s.cache) && s.refs[r].buf < |s.cache.bufs|
    && B.Releases(s.cache, s.refs[r].buf, s'.cache)
    && s' == s.(cache := s'.cache, refs := s.refs - {r})
  }

  /** `begin_op`, or `end_op` up to the commit it may start. */
  ghost predicate OpStep(l: Layout, s: Sys, s': Sys, a: Act) {
    && (a.BeginOp? || a.EndOp?)
    && LogSpace.Step(s.space, l.size, a) == Running(s'.space)
    && var starts := s'.space.log.committing && !s.space.log.committing;
       s' == s.(space := s'.space,
                pc := if !starts then s.pc else if s'.space.log.blocks == [] then Cleared else Copying(0))
  }

  /** One turn of `write_log`. */
  ghost predicate CopyToSlot(l: Layout, s: Sys, s': Sys, dst: nat, src: nat) {
    && s.pc.Copying? && s.pc.k < |s.space.log.blocks|
    && Reading(s, dst) && Reading(s, src)
    && s.refs[dst].blockno == l.start + s.pc.k + 1 < |s.disk|
    && s.refs[src].blockno == s.space.log.blocks[s.pc.k]
    && var i := s.refs[dst].buf;
       s' == WithBuf(s, i, s.cache.bufs[i].(data := Data(s, src)))
             .(disk := s.disk[l.start + s.pc.k + 1 := Data(s, src)], pc := Copying(s.pc.k + 1))
  }

  /** `write_head` of the new header: the commit point. */
  ghost predicate WriteHeader(l: Layout, s: Sys, s': Sys, r: nat) {
    && s.pc.Copying? && s.pc.k == |s.space.log.blocks| <= LOGSIZE
    && Reading(s, r) && s.refs[r].blockno == l.start < |s.disk| && |Data(s, r)| == WORDS
    && var i, h := s.refs[r].buf, Head(Data(s, r), s.space.log.blocks);
       s' == WithBuf(s, i, s.cache.bufs[i].(data := h))
             .(disk := s.disk[l.start := h], pc := Installing(0), stable := s.logical)
  }

  /** One turn of `install_trans`, including `bunpin`. */
  ghost predicate Install(l: Layout, s: Sys, s': Sys, src: nat, dst: nat) {
    && s.pc.Installing? && s.pc.k < |s.space.log.blocks|
    && Reading(s, dst) && Reading(s, src)
    && s.refs[src].blockno == l.start + s.pc.k + 1
    && s.refs[dst].blockno == s.space.log.blocks[s.pc.k] < |s.disk|
    && var i := s.refs[dst].buf;
       s' == WithBuf(s, i, s.cache.bufs[i].(data := Data(s, src), refcnt := s.cache.bufs[i].refcnt - 1))
             .(disk := s.disk[s.space.log.blocks[s.pc.k] := Data(s, src)], pc := Installing(s.pc.k + 1))
  }

  /** `write_head` with an empty list. */
  ghost predicate ClearHeader(l: Layout, s: Sys, s': Sys, r: nat) {
    && s.pc.Installing? && s.pc.k == |s.space.log.blocks|
    && Reading(s, r) && s.refs[r].blockno == l.start < |s.disk| && |Data(s, r)| == WORDS
    && var i, h := s.refs[r].buf, Head(Data(s, r), []);
       s' == WithBuf(s, i, s.cache.bufs[i].(data := h)).(disk := s.disk[l.start := h], pc := Cleared)
  }

  /** The last section of `end_op`. */
  ghost predicate Finish(l: Layout, s: Sys, s': Sys) {
    && s.pc == Cleared
    && LogSpace.Step(s.space, l.size, FinishCommit) == Running(s'.space)
    && s' == s.(space := s'.space, pc := Idle)
  }

  /** Memory as it is after boot and recovery, on disk `d`. Reading the superblock and recovering the log have
      left unreferenced buffers behind, with what the disk has. */
  ghost predicate Booted(l: Layout, s: Sys, d: Disk) {
    && Clear(l, d)
    && s.disk == s.logical == s.stable == d
    && s.refs == map[] && s.space == INIT && s.pc == Idle
    && B.WellFormed(s.cache) && Unique(s.cache.bufs) && Current(l, s.cache.bufs, d, d)
    && forall i :: 0 <= i < |s.cache.bufs| ==> s.cache.bufs[i].refcnt == 0
  }

  /** Power fails; recovery is interrupted any number of times and then completes. */
  ghost predicate Crash(l: Layout, s: Sys, s': Sys, ds: seq<Disk>) {
    && CrashChain(l, ds) && ds[0] == s.disk && Sound(l, ds[|ds| - 1])
    && Booted(l, s', Recovered(l, ds[|ds| - 1]))
  }

  datatype Label =
    | LGet(r: nat, b: nat, i: nat) | LLock(r: nat) | LFill(r: nat) | LChange(r: nat, op: nat, v: Block)
    | LUnlock(r: nat) | LDrop(r: nat) | LOp(a: Act) | LCopy(dst: nat, src: nat) | LHeader(r: nat)
    | LInstall(src: nat, dst: nat) | LClear(r: nat) | LFinish | LCrash(ds: seq<Disk>)

  ghost predicate Next(l: Layout, s: Sys, s': Sys, a: Label) {
    match a
    case LGet(r, b, i) => Get(s, s', r, b, i)
    case LLock(r) => Lock(s, s', r)
    case LFill(r) => Fill(s, s', r)
    case LChange(r, op, v) => Change(l, s, s', r, op, v)
    case LUnlock(r) => Unlock(s, s', r)
    case LDrop(r) => Drop(s, s', r)
    case LOp(a) => OpStep(l, s, s', a)
    case LCopy(dst, src) => CopyToSlot(l, s, s', dst, src)
    case LHeader(r) => WriteHeader(l, s, s', r)
    case LInstall(src, dst) => Install(l, s, s', src, dst)
    case LClear(r) => ClearHeader(l, s, s', r)
    case LFinish => Finish(l, s, s')
    case LCrash(ds) => Crash(l, s, s', ds)
  }

  // ----- Invariant -----

  function RefsTo(refs: map<nat, Ref>, i: int): set<nat> {
    set r | r in refs && refs[r].buf == i
  }

  function Pins(b: B.Buf, pending: seq<nat>): nat {
    if b.dev == DEV && b.blockno in pending then 1 else 0
  }

  /** At most one buffer per block. */
  ghost predicate Unique(bufs: seq<B.Buf>) {
    forall i, j :: 0 <= i < j < |bufs| && bufs[i].dev == DEV == bufs[j].dev ==>
      bufs[i].blockno != bufs[j].blockno
  }

  /** A reference is to a buffer of the block it asked for. */
  ghost predicate RefsOk(bufs: seq<B.Buf>, refs: map<nat, Ref>) {
    forall r :: r in refs ==> refs[r].buf < |bufs| && B.Holds(bufs[refs[r].buf], DEV, refs[r].blockno)
  }

  /** At most one holder of a buffer's sleep lock. */
  ghost predicate Exclusive(refs: map<nat, Ref>) {
    forall r, q :: r in refs && q in refs && r != q && refs[r].buf == refs[q].buf ==>
      !(refs[r].phase == Locked && refs[q].phase == Locked)
  }

  ghost predicate Counts(bufs: seq<B.Buf>, refs: map<nat, Ref>, pending: seq<nat>) {
    forall i :: 0 <= i < |bufs| ==> bufs[i].refcnt == |RefsTo(refs, i)| + Pins(bufs[i], pending)
  }

  /** The current contents of a block: as last logged, or in the log area as on disk. */
  function Now(l: Layout, disk: Disk, logical: Disk, b: nat): Block
    requires b < |disk| == |logical|
  {
    if InLog(l, b) then disk[b] else logical[b]
  }

  /** Every filled buffer is current. */
  ghost predicate Current(l: Layout, bufs: seq<B.Buf>, disk: Disk, logical: Disk) {
    && |disk| == |logical|
    && forall i :: 0 <= i < |bufs| && bufs[i].dev == DEV ==>
         bufs[i].blockno < |disk| && (bufs[i].valid ==> bufs[i].data == Now(l, disk, logical, bufs[i].blockno))
  }

  /** Every block awaiting installation has a filled buffer. */
  ghost predicate AllResident(bufs: seq<B.Buf>, pending: seq<nat>) {
    forall b :: b in pending ==> Resident(bufs, b)
  }

  ghost predicate Resident(bufs: seq<B.Buf>, b: nat) {
    exists i :: 0 <= i < |bufs| && B.Holds(bufs[i], DEV, b) && bufs[i].valid
  }

  ghost predicate CacheInv(l: Layout, s: Sys) {
    && B.WellFormed(s.cache)
    && Unique(s.cache.bufs)
    && RefsOk(s.cache.bufs, s.refs)
    && Exclusive(s.refs)
    && Counts(s.cache.bufs, s.refs, Pending(s))
    && Current(l, s.cache.bufs, s.disk, s.logical)
    && AllResident(s.cache.bufs, Pending(s))
  }

  /** `x` and `y` have the same home blocks outside `except`. */
  ghost predicate Agree(l: Layout, except: seq<nat>, x: Disk, y: Disk) {
    |x| == |y| && forall a {:trigger Home(l, |x|, a)} :: Home(l, |x|, a) && a !in except ==> x[a] == y[a]
  }

  /** Slot `i` holds the new contents of the `i`th logged block, for `i < k`. */
  ghost predicate SlotsHold(l: Layout, d: Disk, t: seq<nat>, k: nat, v: Disk) {
    k <= |t| && forall i :: 0 <= i < k ==> l.start + 1 + i < |d| && t[i] < |v| && d[l.start + 1 + i] == v[t[i]]
  }

  /** The disk: recovery at this moment would restore `stable`, whatever the commit thread is doing. */
  ghost predicate DiskInv(l: Layout, s: Sys) {
    && (forall a :: 0 <= a < |s.logical| ==> |s.logical[a]| == WORDS)
    && Recovers(l, s.disk, s.stable)
    && Loggable(l, |s.disk|, s.space.log.blocks)
    && Agree(l, Pending(s), s.disk, s.logical)
    && match s.pc
       case Idle => Clear(l, s.disk) && Agree(l, s.space.log.blocks, s.stable, s.logical)
       case Copying(k) =>
         && Clear(l, s.disk) && Agree(l, s.space.log.blocks, s.stable, s.logical)
         && SlotsHold(l, s.disk, s.space.log.blocks, k, s.logical)
       case Installing(k) =>
         k <= |s.space.log.blocks| && Targets(s.disk[l.start]) == s.space.log.blocks
             && Agree(l, [], s.stable, s.logical)
       case Cleared => Clear(l, s.disk) && Agree(l, [], s.stable, s.logical)
  }

  ghost predicate SpaceInv(s: Sys) {
    LogSpace.Inv(s.space) && (s.space.log.committing <==> s.pc != Idle)
  }

  ghost predicate Inv(l: Layout, s: Sys) {
    CacheInv(l, s) && DiskInv(l, s) && SpaceInv(s)
  }

  // ----- Counting references -----

  lemma MoreRefs(refs: map<nat, Ref>, r: nat, x: Ref, i: int)
    requires r !in refs
    ensures |RefsTo(refs[r := x], i)| == |RefsTo(refs, i)| + if x.buf == i then 1 else 0
  {
    var was, now := RefsTo(refs, i), RefsTo(refs[r := x], i);
    if x.buf == i {
      assert now == was + {r} && r !in was;
    } else {
      assert now == was;
    }
  }

  lemma AddRef(bufs: seq<B.Buf>, refs: map<nat, Ref>, pending: seq<nat>, r: nat, x: Ref, b: B.Buf)
    requires Counts(bufs, refs, pending) && r !in refs && x.buf < |bufs|
    requires b.refcnt - Pins(b, pending) == bufs[x.buf].refcnt - Pins(bufs[x.buf], pending) + 1
    requires RefsOk(bufs[x.buf := b], refs) && B.Holds(b, DEV, x.blockno)
    ensures Counts(bufs[x.buf := b], refs[r := x], pending) && RefsOk(bufs[x.buf := b], refs[r := x])
  {
    forall i | 0 <= i < |bufs| ensures |RefsTo(refs[r := x], i)| == |RefsTo(refs, i)| + if x.buf == i then 1 else 0 {
      MoreRefs(refs, r, x, i);
    }
  }

  lemma SetPhase(bufs: seq<B.Buf>, refs: map<nat, Ref>, pending: seq<nat>, r: nat, p: Phase)
    requires Counts(bufs, refs, pending) && r in refs
    ensures Counts(bufs, refs[r := refs[r].(phase := p)], pending)
  {
    forall i | 0 <= i < |bufs| ensures RefsTo(refs[r := refs[r].(phase := p)], i) == RefsTo(refs, i) {}
  }

  lemma DropRef(bufs: seq<B.Buf>, refs: map<nat, Ref>, pending: seq<nat>, r: nat, b: B.Buf)
    requires Counts(bufs, refs, pending) && r in refs && refs[r].buf < |bufs|
    requires b == bufs[refs[r].buf].(refcnt := bufs[refs[r].buf].refcnt - 1)
    ensures Counts(bufs[refs[r].buf := b], refs - {r}, pending)
  {
    forall i | 0 <= i < |bufs|
      ensures |RefsTo(refs, i)| == |RefsTo(refs - {r}, i)| + if refs[r].buf == i then 1 else 0
    {
      assert refs == (refs - {r})[r := refs[r]];
      MoreRefs(refs - {r}, r, refs[r], i);
    }
  }

  /** A buffer that `bget` may recycle has no reference and no pin. */
  lemma VictimIsUnused(bufs: seq<B.Buf>, refs: map<nat, Ref>, pending: seq<nat>, i: nat)
    requires Counts(bufs, refs, pending) && i < |bufs| && bufs[i].refcnt == 0
    ensures Pins(bufs[i], pending) == 0 && RefsTo(refs, i) == {}
    ensures forall r :: r in refs ==> refs[r].buf != i
  {
    assert RefsTo(refs, i) == {};
    forall r | r in refs ensures refs[r].buf != i { assert r !in RefsTo(refs, i); }
  }

  /** Changing one buffer without changing which block it holds. */
  lemma SameBlock(bufs: seq<B.Buf>, refs: map<nat, Ref>, pending: seq<nat>, i: nat, b: B.Buf)
    requires Unique(bufs) && RefsOk(bufs, refs) && AllResident(bufs, pending)
    requires i < |bufs| && b.dev == bufs[i].dev && b.blockno == bufs[i].blockno && (bufs[i].valid ==> b.valid)
    ensures Unique(bufs[i := b]) && RefsOk(bufs[i := b], refs) && AllResident(bufs[i := b], pending)
  {
    forall p | p in pending ensures Resident(bufs[i := b], p) {
      var j :| 0 <= j < |bufs| && B.Holds(bufs[j], DEV, p) && bufs[j].valid;
      assert B.Holds(bufs[i := b][j], DEV, p) && bufs[i := b][j].valid;
    }
  }

  lemma Recycle(bufs: seq<B.Buf>, refs: map<nat, Ref>, pending: seq<nat>, i: nat, r: nat, b: nat, v: B.Buf)
    requires Unique(bufs) && RefsOk(bufs, refs) && AllResident(bufs, pending) && Counts(bufs, refs, pending)
    requires i < |bufs| && bufs[i].refcnt == 0 && r !in refs && v == B.Buf(DEV, b, false, 1, bufs[i].data)
    requires forall j :: 0 <= j < |bufs| ==> !B.Holds(bufs[j], DEV, b)
    ensures Unique(bufs[i := v]) && RefsOk(bufs[i := v], refs[r := Ref(i, b, Waiting)])
    ensures AllResident(bufs[i := v], pending) && Counts(bufs[i := v], refs[r := Ref(i, b, Waiting)], pending)
  {
    VictimIsUnused(bufs, refs, pending, i);
    forall p | p in pending ensures p != b && Resident(bufs[i := v], p) {
      assert Resident(bufs, p);
      var j :| 0 <= j < |bufs| && B.Holds(bufs[j], DEV, p) && bufs[j].valid;
      assert B.Holds(bufs[i := v][j], DEV, p) && bufs[i := v][j].valid;
    }
    AddRef(bufs, refs, pending, r, Ref(i, b, Waiting), v);
  }

  // ----- Each step keeps the invariant -----

  lemma GetKeepsInv(l: Layout, s: Sys, s': Sys, r: nat, b: nat, i: nat)
    requires CacheInv(l, s) && Get(s, s', r, b, i)
    ensures CacheInv(l, s')
  {
    hide Unique, RefsOk, AllResident, Counts;
    var bufs, pending := s.cache.bufs, Pending(s);
    if B.Cached(s.cache, DEV, b) {
      var k :| B.Hit(s.cache, DEV, b, k) && s.cache.order[k] == i;
      var v := bufs[i].(refcnt := bufs[i].refcnt + 1);
      SameBlock(bufs, s.refs, pending, i, v);
      AddRef(bufs, s.refs, pending, r, Ref(i, b, Waiting), v);
    } else {
      var k :| B.Victim(s.cache, k) && s.cache.order[k] == i;
      Recycle(bufs, s.refs, pending, i, r, b, s'.cache.bufs[i]);
    }
  }

  lemma LockKeepsInv(l: Layout, s: Sys, s': Sys, r: nat)
    requires CacheInv(l, s) && (Lock(s, s', r) || Unlock(s, s', r))
    ensures CacheInv(l, s')
  {
    hide Unique, AllResident, Counts, Current;
    SetPhase(s.cache.bufs, s.refs, Pending(s), r, s'.refs[r].phase);
  }

  /** The buffer of a block awaiting installation is filled. */
  lemma UnfilledIsNotPending(bufs: seq<B.Buf>, pending: seq<nat>, i: nat, b: nat)
    requires Unique(bufs) && AllResident(bufs, pending) && i < |bufs| && B.Holds(bufs[i], DEV, b)
    ensures b in pending ==> bufs[i].valid
  {
    if b in pending {
      assert Resident(bufs, b);
    }
  }

  lemma FillKeepsInv(l: Layout, s: Sys, s': Sys, r: nat)
    requires CacheInv(l, s) && Agree(l, Pending(s), s.disk, s.logical) && Fill(s, s', r)
    ensures CacheInv(l, s')
  {
    hide Unique, AllResident;
    var i, b := s.refs[r].buf, s.refs[r].blockno;
    UnfilledIsNotPending(s.cache.bufs, Pending(s), i, b);
    assert Home(l, |s.disk|, b) || InLog(l, b);
    SameBlock(s.cache.bufs, s.refs, Pending(s), i, s'.cache.bufs[i]);
  }

  lemma DropKeepsInv(l: Layout, s: Sys, s': Sys, r: nat)
    requires CacheInv(l, s) && Drop(s, s', r)
    ensures CacheInv(l, s')
  {
    hide Unique, Counts, AllResident;
    var i := s.refs[r].buf;
    SameBlock(s.cache.bufs, s.refs, Pending(s), i, s'.cache.bufs[i]);
    DropRef(s.cache.bufs, s.refs, Pending(s), r, s'.cache.bufs[i]);
    if s.cache.bufs[i].refcnt == 1 {
      var k :| 0 <= k < |s.cache.order| && s.cache.order[k] == i && s'.cache.order == B.ToFront(s.cache.order, k);
      B.ToFrontWellFormed(s.cache, k);
    }
  }

  /** Writing a buffer and its block together. */
  lemma WriteThrough(l: Layout, bufs: seq<B.Buf>, disk: Disk, logical: Disk, i: nat, b: B.Buf,
                     disk': Disk, logical': Disk)
    requires Unique(bufs) && Current(l, bufs, disk, logical)
    requires i < |bufs| && bufs[i].dev == DEV && b.dev == DEV && b.blockno == bufs[i].blockno
    requires |disk'| == |logical'| == |disk| && b.data == Now(l, disk', logical', b.blockno)
    requires forall a :: 0 <= a < |disk| && a != b.blockno ==> Now(l, disk', logical', a) == Now(l, disk, logical, a)
    ensures Current(l, bufs[i := b], disk', logical')
  {
  }

  lemma {:induction false} PinOne(bufs: seq<B.Buf>, refs: map<nat, Ref>, pending: seq<nat>, i: nat, b: B.Buf, p: nat)
    requires Unique(bufs) && Counts(bufs, refs, pending) && p !in pending
    requires i < |bufs| && B.Holds(bufs[i], DEV, p) && B.Holds(b, DEV, p) && b.refcnt == bufs[i].refcnt + 1
    ensures Counts(bufs[i := b], refs, pending + [p])
  {
    forall j | 0 <= j < |bufs| && j != i ensures Pins(bufs[j], pending + [p]) == Pins(bufs[j], pending) {
      assert bufs[j].dev == DEV ==> bufs[j].blockno != p;
    }
  }

  lemma UnpinFirst(bufs: seq<B.Buf>, refs: map<nat, Ref>, pending: seq<nat>, i: nat, b: B.Buf)
    requires Unique(bufs) && Counts(bufs, refs, pending) && pending != [] && pending[0] !in pending[1..]
    requires i < |bufs| && B.Holds(bufs[i], DEV, pending[0]) && B.Holds(b, DEV, pending[0])
    requires b.refcnt == bufs[i].refcnt - 1
    ensures Counts(bufs[i := b], refs, pending[1..])
  {
    forall j | 0 <= j < |bufs| && j != i ensures Pins(bufs[j], pending[1..]) == Pins(bufs[j], pending) {
      assert bufs[j].dev == DEV ==> bufs[j].blockno != pending[0];
    }
  }

  lemma ChangeKeepsCache(l: Layout, s: Sys, s': Sys, r: nat, op: nat, v: Block)
    requires CacheInv(l, s) && SpaceInv(s) && Change(l, s, s', r, op, v)
    ensures CacheInv(l, s')
  {
    hide Unique, AllResident, Counts;
    var i, b := s.refs[r].buf, s.refs[r].blockno;
    var bufs, v := s.cache.bufs, s'.cache.bufs[i];
    assert s.pc == Idle;
    SameBlock(bufs, s.refs, Pending(s), i, v);
    WriteThrough(l, bufs, s.disk, s.logical, i, v, s'.disk, s'.logical);
    if b !in s.space.log.blocks {
      PinOne(bufs, s.refs, Pending(s), i, v, b);
      NowResident(s'.cache.bufs, Pending(s), i, b);
    } else {
      SameCounts(bufs, s.refs, Pending(s), i, v);
    }
  }

  lemma SameCounts(bufs: seq<B.Buf>, refs: map<nat, Ref>, pending: seq<nat>, i: nat, b: B.Buf)
    requires Counts(bufs, refs, pending) && i < |bufs|
    requires b.dev == bufs[i].dev && b.blockno == bufs[i].blockno && b.refcnt == bufs[i].refcnt
    ensures Counts(bufs[i := b], refs, pending)
  {
  }

  lemma NowResident(bufs: seq<B.Buf>, pending: seq<nat>, i: nat, b: nat)
    requires AllResident(bufs, pending) && i < |bufs| && B.Holds(bufs[i], DEV, b) && bufs[i].valid
    ensures AllResident(bufs, pending + [b])
  {
    assert Resident(bufs, b);
  }

  lemma AgreeLogged(l: Layout, t: seq<nat>, t': seq<nat>, x: Disk, y: Disk, b: nat, v: Block)
    requires Agree(l, t, x, y) && t <= t' && b in t' && b < |y|
    ensures Agree(l, t', x, y[b := v])
  {
    assert forall a :: a in t ==> a in t';
  }

  lemma ChangeKeepsSpace(l: Layout, s: Sys, s': Sys, r: nat, op: nat, v: Block)
    requires SpaceInv(s) && Change(l, s, s', r, op, v)
    ensures SpaceInv(s') && s.pc == Idle
  {
    hide LogSpace.Inv;
    CommitsAlone(s, op);
    StepKeepsInv(s.space, l.size, LogWrite(op, s.refs[r].blockno));
  }

  lemma CommitsAlone(s: Sys, op: nat)
    requires SpaceInv(s) && op in s.space.ops
    ensures s.pc == Idle && !s.space.log.committing
  {
  }

  lemma ChangeEffect(l: Layout, s: Sys, s': Sys, r: nat, op: nat, v: Block)
    requires Change(l, s, s', r, op, v)
    ensures r in s.refs
    ensures var b, t' := s.refs[r].blockno, s'.space.log.blocks;
            && s.space.log.blocks <= t' && b in t' && |v| == WORDS && b < |s.logical| && s'.logical == s.logical[b := v]
            && s'.disk == s.disk && s'.stable == s.stable && s'.pc == s.pc
  {
  }

  lemma ChangeKeepsDisk(l: Layout, s: Sys, s': Sys, r: nat, op: nat, v: Block)
    requires DiskInv(l, s) && SpaceInv(s) && Change(l, s, s', r, op, v)
    ensures DiskInv(l, s') && SpaceInv(s')
  {
    hide Recovers, Clear, Loggable, Agree, Change, SpaceInv;
    ChangeKeepsSpace(l, s, s', r, op, v);
    ChangeKeepsLoggable(l, s, s', r, op, v);
    ChangeEffect(l, s, s', r, op, v);
    var b, t, t' := s.refs[r].blockno, s.space.log.blocks, s'.space.log.blocks;
    AgreeLogged(l, t, t', s.disk, s.logical, b, v);
    AgreeLogged(l, t, t', s.stable, s.logical, b, v);
  }

  lemma ChangeKeepsLoggable(l: Layout, s: Sys, s': Sys, r: nat, op: nat, v: Block)
    requires Loggable(l, |s.disk|, s.space.log.blocks) && Change(l, s, s', r, op, v)
    ensures Loggable(l, |s.disk|, s'.space.log.blocks)
  {
  }

  lemma OpKeepsInv(l: Layout, s: Sys, s': Sys, a: Act)
    requires Inv(l, s) && OpStep(l, s, s', a)
    ensures Inv(l, s')
  {
    StepKeepsInv(s.space, l.size, a);
    assert Pending(s') == Pending(s);
  }

  /** A reader sees the current contents: the disk overlaid with what is logged but not installed. */
  lemma BreadIsCurrent(l: Layout, s: Sys, r: nat)
    requires Inv(l, s) && Reading(s, r)
    ensures s.refs[r].blockno < |s.disk| == |s.logical|
    ensures var b := s.refs[r].blockno;
            Data(s, r) == if b in Pending(s) then s.logical[b] else s.disk[b]
  {
    var b := s.refs[r].blockno;
    assert Home(l, |s.disk|, b) || InLog(l, b);
    if b in Pending(s) {
      assert b in s.space.log.blocks;
      var k :| 0 <= k < |s.space.log.blocks| && s.space.log.blocks[k] == b;
      assert Home(l, |s.disk|, s.space.log.blocks[k]);
    }
  }

  /** A log-area block written through its buffer. */
  lemma LogAreaWrite(l: Layout, s: Sys, s': Sys, r: nat, v: Block)
    requires CacheInv(l, s) && Reading(s, r) && InLog(l, s.refs[r].blockno) && s.refs[r].blockno < |s.disk|
    requires s'.cache == s.cache.(bufs := s.cache.bufs[s.refs[r].buf := s.cache.bufs[s.refs[r].buf].(data := v)])
    requires s'.disk == s.disk[s.refs[r].blockno := v]
    requires s'.refs == s.refs && s'.logical == s.logical && Pending(s') == Pending(s)
    ensures CacheInv(l, s')
  {
    hide Unique, AllResident, Counts;
    var i := s.refs[r].buf;
    var b := s'.cache.bufs[i];
    SameBlock(s.cache.bufs, s.refs, Pending(s), i, b);
    SameCounts(s.cache.bufs, s.refs, Pending(s), i, b);
    WriteThrough(l, s.cache.bufs, s.disk, s.logical, i, b, s'.disk, s'.logical);
  }

  lemma CopyKeepsDisk(l: Layout, s: Sys, s': Sys, dst: nat, src: nat)
    requires DiskInv(l, s) && CopyToSlot(l, s, s', dst, src)
    requires Data(s, src) == s.logical[s.space.log.blocks[s.pc.k]]
    ensures DiskInv(l, s')
  {
    var k, t := s.pc.k, s.space.log.blocks;
    assert Home(l, |s.disk|, t[k]);
    SlotWrite(l, s.disk, s.stable, l.start + k + 1, Data(s, src));
  }

  lemma CopyKeepsInv(l: Layout, s: Sys, s': Sys, dst: nat, src: nat)
    requires Inv(l, s) && CopyToSlot(l, s, s', dst, src)
    ensures Inv(l, s')
  {
    BreadIsCurrent(l, s, src);
    hide Agree, SlotsHold, CacheInv, Recovers, Clear;
    CopyKeepsDisk(l, s, s', dst, src);
    LogAreaWrite(l, s, s', dst, Data(s, src));
  }

  lemma HeaderKeepsDisk(l: Layout, s: Sys, s': Sys, r: nat)
    requires DiskInv(l, s) && WriteHeader(l, s, s', r) && Data(s, r) == s.disk[l.start]
    ensures DiskInv(l, s')
  {
    var t := s.space.log.blocks;
    HeadWrite(l, s.disk, s.stable, s.logical, t);
    assert Targets(Head(s.disk[l.start], t)) == t;
  }

  lemma HeaderKeepsInv(l: Layout, s: Sys, s': Sys, r: nat)
    requires Inv(l, s) && WriteHeader(l, s, s', r)
    ensures Inv(l, s') && s.space.ops == {}
  {
    BreadIsCurrent(l, s, r);
    HeaderNotPending(l, s);
    hide Agree, SlotsHold, CacheInv, Recovers, Clear;
    HeaderKeepsDisk(l, s, s', r);
    LogAreaWrite(l, s, s', r, Head(Data(s, r), s.space.log.blocks));
  }

  lemma HeaderNotPending(l: Layout, s: Sys)
    requires DiskInv(l, s)
    ensures forall a :: InLog(l, a) ==> a !in Pending(s)
  {
    forall a | a in Pending(s) ensures !InLog(l, a) {
      assert a in s.space.log.blocks;
    }
  }

  lemma InstallNextBlock(l: Layout, d: Disk, stable: Disk, logical: Disk, t: seq<nat>, k: nat)
    requires Recovers(l, d, stable) && Targets(d[l.start]) == t && k < |t|
    requires Agree(l, [], stable, logical) && Agree(l, t[k..], d, logical)
    ensures t[k] < |d| && d[l.start + 1 + k] == logical[t[k]]
    ensures var d' := d[t[k] := logical[t[k]]];
            Recovers(l, d', stable) && d'[l.start] == d[l.start] && Agree(l, t[k + 1..], d', logical)
  {
    assert Home(l, |d|, t[k]);
    assert t[k] !in [] && d[l.start + 1 + k] == stable[t[k]];
    AgreeNext(l, t[k..], d, logical);
    assert t[k..][1..] == t[k + 1..];
    InstallWrite(l, d, stable, k);
  }

  lemma InstallKeepsDisk(l: Layout, s: Sys, s': Sys, src: nat, dst: nat)
    requires DiskInv(l, s) && Install(l, s, s', src, dst) && Data(s, src) == s.disk[l.start + s.pc.k + 1]
    ensures DiskInv(l, s') && Data(s, src) == s.logical[s.space.log.blocks[s.pc.k]]
  {
    hide Agree, Loggable, Recovers, Clear, Head, Targets;
    var k, t, v := s.pc.k, s.space.log.blocks, Data(s, src);
    assert s'.disk == s.disk[t[k] := v] && s'.pc == Installing(k + 1) && s'.space == s.space;
    assert s'.logical == s.logical && s'.stable == s.stable;
    hide Install, Reading, WithBuf, Data;
    InstallNextBlock(l, s.disk, s.stable, s.logical, t, k);
  }

  lemma AgreeNext(l: Layout, pending: seq<nat>, x: Disk, y: Disk)
    requires Agree(l, pending, x, y) && pending != [] && pending[0] < |x|
    ensures Agree(l, pending[1..], x[pending[0] := y[pending[0]]], y)
  {
    assert pending == [pending[0]] + pending[1..];
  }

  lemma InstallKeepsCache(l: Layout, s: Sys, s': Sys, src: nat, dst: nat)
    requires CacheInv(l, s) && Install(l, s, s', src, dst)
    requires Data(s, src) == s.logical[s.space.log.blocks[s.pc.k]]
    requires Loggable(l, |s.disk|, s.space.log.blocks)
    ensures CacheInv(l, s')
  {
    hide AllResident, Counts;
    var i, k, t := s.refs[dst].buf, s.pc.k, s.space.log.blocks;
    var bufs, b := s.cache.bufs, s'.cache.bufs[i];
    assert Home(l, |s.disk|, t[k]);
    assert Pending(s)[1..] == Pending(s') && Pending(s)[0] == t[k];
    hide Unique;
    SameBlock(bufs, s.refs, Pending(s), i, b);
    UnpinFirst(bufs, s.refs, Pending(s), i, b);
    WriteThrough(l, bufs, s.disk, s.logical, i, b, s'.disk, s'.logical);
    FewerResident(s'.cache.bufs, Pending(s));
  }

  lemma FewerResident(bufs: seq<B.Buf>, pending: seq<nat>)
    requires AllResident(bufs, pending) && pending != []
    ensures AllResident(bufs, pending[1..])
  {
  }

  lemma InstallKeepsInv(l: Layout, s: Sys, s': Sys, src: nat, dst: nat)
    requires Inv(l, s) && Install(l, s, s', src, dst)
    ensures Inv(l, s')
  {
    BreadIsCurrent(l, s, src);
    HeaderNotPending(l, s);
    assert s.refs[src].blockno !in Pending(s) && Data(s, src) == s.disk[l.start + s.pc.k + 1];
    hide Agree, CacheInv, Recovers, Clear, Loggable, LogSpace.Inv, Reading;
    InstallKeepsDisk(l, s, s', src, dst);
    InstallKeepsCache(l, s, s', src, dst);
  }

  lemma ClearKeepsDisk(l: Layout, s: Sys, s': Sys, r: nat)
    requires DiskInv(l, s) && ClearHeader(l, s, s', r) && Data(s, r) == s.disk[l.start]
    ensures DiskInv(l, s')
  {
    assert Head(s.disk[l.start], []) == s.disk[l.start][0 := 0];
    forall i | 0 <= i < |s.space.log.blocks| ensures s.disk[s.space.log.blocks[i]] == s.stable[s.space.log.blocks[i]] {
      assert Home(l, |s.disk|, s.space.log.blocks[i]);
    }
    ClearWrite(l, s.disk, s.stable);
  }

  lemma ClearKeepsInv(l: Layout, s: Sys, s': Sys, r: nat)
    requires Inv(l, s) && ClearHeader(l, s, s', r)
    ensures Inv(l, s')
  {
    BreadIsCurrent(l, s, r);
    hide Agree, CacheInv, Recovers, Clear;
    ClearKeepsDisk(l, s, s', r);
    LogAreaWrite(l, s, s', r, Head(Data(s, r), []));
  }

  lemma FinishKeepsInv(l: Layout, s: Sys, s': Sys)
    requires Inv(l, s) && Finish(l, s, s')
    ensures Inv(l, s')
  {
    hide Unique, RefsOk, Counts, Current, AllResident, Recovers, Agree;
    StepKeepsInv(s.space, l.size, FinishCommit);
    assert Pending(s') == Pending(s);
  }

  lemma BootedInv(l: Layout, s: Sys, d: Disk)
    requires Booted(l, s, d)
    ensures Inv(l, s)
  {
    assert forall i :: RefsTo(s.refs, i) == {};
  }

  /** Whatever is in flight, a crash and any number of interrupted recoveries bring back exactly the
      blocks of the last commit point. */
  lemma CrashRestoresStable(l: Layout, s: Sys, ds: seq<Disk>)
    requires Inv(l, s) && CrashChain(l, ds) && ds[0] == s.disk
    ensures Sound(l, ds[|ds| - 1])
    ensures var f := Recovered(l, ds[|ds| - 1]);
            Clear(l, f) && |f| == |s.stable| && forall a :: Home(l, |f|, a) ==> f[a] == s.stable[a]
  {
    ChainRecovers(l, ds, s.stable);
    RecoveryCompletes(l, ds[|ds| - 1], s.stable);
  }

  lemma NextKeepsInv(l: Layout, s: Sys, s': Sys, a: Label)
    requires Inv(l, s) && Next(l, s, s', a)
    ensures Inv(l, s')
  {
    hide Inv, CacheInv, DiskInv, SpaceInv, Get, Lock, Fill, Change, Unlock, Drop, OpStep, CopyToSlot, WriteHeader,
      Install, ClearHeader, Finish, Booted;
    match a
    case LGet(r, b, i) => QuietKeepsInv(l, s, s', a);
    case LLock(r) => QuietKeepsInv(l, s, s', a);
    case LFill(r) => QuietKeepsInv(l, s, s', a);
    case LUnlock(r) => QuietKeepsInv(l, s, s', a);
    case LDrop(r) => QuietKeepsInv(l, s, s', a);
    case LChange(r, op, v) => ChangeKeepsInv(l, s, s', r, op, v);
    case LOp(b) => OpKeepsInv(l, s, s', b);
    case LCopy(dst, src) => CopyKeepsInv(l, s, s', dst, src);
    case LHeader(r) => HeaderKeepsInv(l, s, s', r);
    case LInstall(src, dst) => InstallKeepsInv(l, s, s', src, dst);
    case LClear(r) => ClearKeepsInv(l, s, s', r);
    case LFinish => FinishKeepsInv(l, s, s');
    case LCrash(ds) => BootedInv(l, s', Recovered(l, ds[|ds| - 1]));
  }

  lemma ChangeKeepsInv(l: Layout, s: Sys, s': Sys, r: nat, op: nat, v: Block)
    requires Inv(l, s) && Change(l, s, s', r, op, v)
    ensures Inv(l, s')
  {
    ChangeKeepsCache(l, s, s', r, op, v);
    ChangeKeepsDisk(l, s, s', r, op, v);
  }

  /** The steps that touch neither the disk nor the log. */
  lemma QuietKeepsInv(l: Layout, s: Sys, s': Sys, a: Label)
    requires Inv(l, s) && Next(l, s, s', a) && (a.LGet? || a.LLock? || a.LFill? || a.LUnlock? || a.LDrop?)
    ensures Inv(l, s')
  {
    hide CacheInv, Recovers, Loggable, Agree, Clear;
    match a
    case LGet(r, b, i) => GetKeepsInv(l, s, s', r, b, i);
    case LLock(r) => LockKeepsInv(l, s, s', r);
    case LFill(r) => FillKeepsInv(l, s, s', r);
    case LUnlock(r) => LockKeepsInv(l, s, s', r);
    case LDrop(r) => DropKeepsInv(l, s, s', r);
    case _ =>
  }

  /** Only the commit point moves `stable`, and then no operation is in progress: what a crash brings
      back never holds part of an operation. */
  lemma StableMovesOnlyAtCommit(l: Layout, s: Sys, s': Sys, a: Label)
    requires Inv(l, s) && Next(l, s, s', a) && !a.LCrash?
    ensures s'.stable == if a.LHeader? then s.logical else s.stable
    ensures a.LHeader? ==> s.space.ops == {}
  {
    hide CacheInv, DiskInv;
    if a.LHeader? { HeaderKeepsInv(l, s, s', a.r); }
  }

  // ----- Whole runs -----

  /** A run from boot: `ss[i]` goes to `ss[i + 1]` by `acts[i]`. */
  ghost predicate IsRun(l: Layout, d: Disk, ss: seq<Sys>, acts: seq<Label>) {
    && |ss| == |acts| + 1
    && Booted(l, ss[0], d)
    && forall i, j :: 0 <= i < |acts| && j == i + 1 ==> Next(l, ss[i], ss[j], acts[i])
  }

  lemma {:induction false} RunKeepsInv(l: Layout, d: Disk, ss: seq<Sys>, acts: seq<Label>, i: nat)
    requires IsRun(l, d, ss, acts) && i < |ss|
    ensures Inv(l, ss[i])
  {
    hide Inv, Next;
    if i == 0 {
      BootedInv(l, ss[0], d);
    } else {
      RunKeepsInv(l, d, ss, acts, i - 1);
      assert Next(l, ss[i - 1], ss[i], acts[i - 1]);
      NextKeepsInv(l, ss[i - 1], ss[i], acts[i - 1]);
    }
  }

  /** After the commit point at step `c`, and until the next one or a crash, a crash at any step
      restores the blocks exactly as they were logged at `c`. */
  lemma {:induction false} StableSince(l: Layout, d: Disk, ss: seq<Sys>, acts: seq<Label>, c: nat, i: nat)
    requires IsRun(l, d, ss, acts) && c < i < |ss| && acts[c].LHeader?
    requires forall k :: c < k < i ==> !acts[k].LHeader? && !acts[k].LCrash?
    ensures ss[i].stable == ss[c].logical && ss[c].space.ops == {}
  {
    hide Inv, Next;
    RunKeepsInv(l, d, ss, acts, i - 1);
    assert Next(l, ss[i - 1], ss[i], acts[i - 1]);
    StableMovesOnlyAtCommit(l, ss[i - 1], ss[i], acts[i - 1]);
    if c + 1 < i {
      StableSince(l, d, ss, acts, c, i - 1);
    }
  }

  lemma CommittedSurvives(l: Layout, d: Disk, ss: seq<Sys>, acts: seq<Label>, c: nat, i: nat, ds: seq<Disk>)
    requires IsRun(l, d, ss, acts) && c < i < |ss| && acts[c].LHeader?
    requires forall k :: c < k < i ==> !acts[k].LHeader? && !acts[k].LCrash?
    requires CrashChain(l, ds) && ds[0] == ss[i].disk
    ensures Sound(l, ds[|ds| - 1])
    ensures var f := Recovered(l, ds[|ds| - 1]);
            |f| == |ss[c].logical| && forall a :: Home(l, |f|, a) ==> f[a] == ss[c].logical[a]
  {
    RunKeepsInv(l, d, ss, acts, i);
    StableSince(l, d, ss, acts, c, i);
    CrashRestoresStable(l, ss[i], ds);
  }

  /** In every reachable state, a block has at most one buffer, and a buffer that is held, waited for
      or pinned is not one that `bget` may recycle. */
  lemma BuffersAreSafe(l: Layout, d: Disk, ss: seq<Sys>, acts: seq<Label>, i: nat, x: nat, y: nat)
    requires IsRun(l, d, ss, acts) && i < |ss| && x < |ss[i].cache.bufs| && y < |ss[i].cache.bufs|
    ensures var bufs := ss[i].cache.bufs;
            && (x != y && bufs[x].dev == DEV == bufs[y].dev ==> bufs[x].blockno != bufs[y].blockno)
            && ((exists r :: r in ss[i].refs && ss[i].refs[r].buf == x) || Pins(bufs[x], Pending(ss[i])) == 1 ==>
                  bufs[x].refcnt != 0)
  {
    RunKeepsInv(l, d, ss, acts, i);
    var s := ss[i];
    if s.cache.bufs[x].refcnt == 0 {
      VictimIsUnused(s.cache.bufs, s.refs, Pending(s), x);
    }
  }

  /** In every run, once no operation is outstanding and the commit is done, nothing is left in the log and a crash
      would lose nothing: the committed blocks are the blocks as last logged. */
  lemma QuietIsDurable(l: Layout, d: Disk, ss: seq<Sys>, acts: seq<Label>, i: nat)
    requires IsRun(l, d, ss, acts) && i < |ss| && ss[i].space.ops == {} && ss[i].pc == Idle
    ensures ss[i].space.log.blocks == [] && Agree(l, [], ss[i].stable, ss[i].logical)
    ensures Agree(l, [], ss[i].disk, ss[i].logical)
  {
    RunKeepsInv(l, d, ss, acts, i);
  }

  /** How many steps the commit thread still has to make. */
  function CommitLeft(s: Sys): int {
    var n := |s.space.log.blocks|;
    match s.pc
    case Idle => 0
    case Copying(k) => (n - k) + 1 + n + 2
    case Installing(k) => (n - k) + 2
    case Cleared => 1
  }

  /** The blocks the commit thread must have read to go on: where it copies from and to, or the header. */
  function Wanted(l: Layout, s: Sys): (nat, nat) {
    var t := s.space.log.blocks;
    match s.pc
    case Copying(k) => if k < |t| then (t[k], l.start + k + 1) else (l.start, l.start)
    case Installing(k) => if k < |t| then (l.start + k + 1, t[k]) else (l.start, l.start)
    case _ => (l.start, l.start)
  }

  /** The end of the last operation starts a commit, which takes a step for every block to be copied and installed
      and for either header. */
  lemma LastEndStartsCommit(l: Layout, s: Sys, s': Sys, op: nat)
    requires Inv(l, s) && s.space.ops == {op} && Next(l, s, s', LOp(EndOp(op)))
    ensures s'.space.ops == {} && s'.space.log.blocks == s.space.log.blocks
    ensures CommitLeft(s') == if s.space.log.blocks == [] then 1 else 2 * |s.space.log.blocks| + 3
  {
    assert |s.space.ops| == 1;
    assert {op} - {op} == {};
  }

  /** The numbers are in range, and a block read is a block long. */
  lemma WantedInRange(l: Layout, s: Sys, src: nat, dst: nat)
    requires Inv(l, s) && Reading(s, src) && Reading(s, dst)
    requires (s.refs[src].blockno, s.refs[dst].blockno) == Wanted(l, s)
    ensures Wanted(l, s).1 < |s.disk| && l.start < |s.disk| && |Data(s, dst)| == WORDS
    ensures |s.space.log.blocks| <= LOGSIZE && s.refs[dst].buf < |s.cache.bufs|
    ensures s.pc.Copying? || s.pc.Installing? ==> s.pc.k <= |s.space.log.blocks|
  {
    BreadIsCurrent(l, s, dst);
    hide CacheInv, Agree;
  }

  /** With the buffers it wants, the commit thread always has a step to make, and comes one step nearer its end. */
  lemma CommitAdvances(l: Layout, s: Sys, src: nat, dst: nat) returns (a: Label, s': Sys)
    requires Inv(l, s) && s.pc != Idle && Reading(s, src) && Reading(s, dst)
    requires (s.refs[src].blockno, s.refs[dst].blockno) == Wanted(l, s)
    ensures Next(l, s, s', a) && CommitLeft(s') == CommitLeft(s) - 1
  {
    WantedInRange(l, s, src, dst);
    hide Inv, Head;
    if s.pc.Copying? {
      a, s' := CopyAdvances(l, s, src, dst);
    } else if s.pc.Installing? {
      a, s' := InstallAdvances(l, s, src, dst);
    } else {
      a, s' := LFinish, s.(space := LogSpace.Step(s.space, l.size, FinishCommit).s, pc := Idle);
    }
  }

  lemma CopyAdvances(l: Layout, s: Sys, src: nat, dst: nat) returns (a: Label, s': Sys)
    requires s.pc.Copying? && s.pc.k <= |s.space.log.blocks| <= LOGSIZE && Reading(s, src) && Reading(s, dst)
    requires (s.refs[src].blockno, s.refs[dst].blockno) == Wanted(l, s)
    requires Wanted(l, s).1 < |s.disk| && l.start < |s.disk| && |Data(s, dst)| == WORDS
    ensures Next(l, s, s', a) && CommitLeft(s') == CommitLeft(s) - 1
  {
    hide Head;
    var i, k, t := s.refs[dst].buf, s.pc.k, s.space.log.blocks;
    if k < |t| {
      a := LCopy(dst, src);
      s' := WithBuf(s, i, s.cache.bufs[i].(data := Data(s, src)))
            .(disk := s.disk[l.start + k + 1 := Data(s, src)], pc := Copying(k + 1));
    } else {
      var h := Head(Data(s, dst), t);
      a := LHeader(dst);
      s' := WithBuf(s, i, s.cache.bufs[i].(data := h))
            .(disk := s.disk[l.start := h], pc := Installing(0), stable := s.logical);
    }
  }

  lemma InstallAdvances(l: Layout, s: Sys, src: nat, dst: nat) returns (a: Label, s': Sys)
    requires s.pc.Installing? && s.pc.k <= |s.space.log.blocks| && Reading(s, src) && Reading(s, dst)
    requires (s.refs[src].blockno, s.refs[dst].blockno) == Wanted(l, s)
    requires Wanted(l, s).1 < |s.disk| && l.start < |s.disk| && |Data(s, dst)| == WORDS
    ensures Next(l, s, s', a) && CommitLeft(s') == CommitLeft(s) - 1
  {
    hide Head;
    var i, k, t := s.refs[dst].buf, s.pc.k, s.space.log.blocks;
    if k < |t| {
      a := LInstall(src, dst);
      s' := WithBuf(s, i, s.cache.bufs[i].(data := Data(s, src), refcnt := s.cache.bufs[i].refcnt - 1))
            .(disk := s.disk[t[k] := Data(s, src)], pc := Installing(k + 1));
    } else {
      var h := Head(Data(s, dst), []);
      a := LClear(dst);
      s' := WithBuf(s, i, s.cache.bufs[i].(data := h)).(disk := s.disk[l.start := h], pc := Cleared);
    }
  }

  // ----- Readers -----

  /** How many steps a reader has left, at most: lock, fill, unlock, drop. */
  function ReadLeft(s: Sys, r: nat): nat {
    if r !in s.refs then 0
    else
      match s.refs[r].phase
      case Waiting => 4
      case Locked => if s.refs[r].buf < |s.cache.bufs| && s.cache.bufs[s.refs[r].buf].valid then 2 else 3
      case Leaving => 1
  }

  lemma ReaderBuffer(l: Layout, s: Sys, r: nat)
    requires Inv(l, s) && r in s.refs
    ensures s.refs[r].buf < |s.cache.bufs| && s.refs[r].blockno < |s.disk| && B.WellFormed(s.cache)
  {
    hide DiskInv, SpaceInv;
  }

  /** The state after `brelse` has dropped its reference. */
  function AfterDrop(s: Sys, r: nat): Sys
    requires r in s.refs && s.refs[r].buf < |s.cache.bufs| && B.WellFormed(s.cache)
  {
    var i, bufs := s.refs[r].buf, s.cache.bufs;
    var order := if bufs[i].refcnt == 1 then B.ToFront(s.cache.order, B.PlaceOf(s.cache, i)) else s.cache.order;
    s.(cache := B.Cache(bufs[i := bufs[i].(refcnt := bufs[i].refcnt - 1)], order), refs := s.refs - {r})
  }

  predicate LockTaken(s: Sys, r: nat)
    requires r in s.refs
  {
    exists h :: h in s.refs && s.refs[h].buf == s.refs[r].buf && s.refs[h].phase == Locked
  }

  /** `bread` and `brelse` never get stuck: a reader has a step to make that brings it nearer its end, or waits for the
      sleep lock of its buffer, whose holder has. A holder whose buffer is not filled fills it. */
  lemma ReaderCanGo(l: Layout, s: Sys, r: nat) returns (q: nat, a: Label, s': Sys)
    requires Inv(l, s) && r in s.refs
    ensures q in s.refs && s.refs[q].buf == s.refs[r].buf && (q == r || s.refs[q].phase == Locked)
    ensures Next(l, s, s', a) && ReadLeft(s', q) < ReadLeft(s, q)
    ensures s.refs[q].phase == Locked && !Reading(s, q) ==> Reading(s', q)
  {
    hide Inv, B.ToFront;
    q := r;
    if s.refs[r].phase == Waiting && LockTaken(s, r) {
      q :| q in s.refs && s.refs[q].buf == s.refs[r].buf && s.refs[q].phase == Locked;
    }
    ReaderBuffer(l, s, q);
    var i := s.refs[q].buf;
    match s.refs[q].phase
    case Waiting =>
      a, s' := LLock(q), s.(refs := s.refs[q := s.refs[q].(phase := Locked)]);
    case Locked =>
      if s.cache.bufs[i].valid {
        a, s' := LUnlock(q), s.(refs := s.refs[q := s.refs[q].(phase := Leaving)]);
      } else {
        a := LFill(q);
        s' := WithBuf(s, i, s.cache.bufs[i].(valid := true, data := s.disk[s.refs[q].blockno]));
      }
    case Leaving =>
      a, s' := LDrop(q), AfterDrop(s, q);
  }

  /** `bget` gives every block a buffer, unless every buffer is in use and none is that block's. */
  lemma GetCanGo(l: Layout, s: Sys, r: nat, b: nat) returns (a: Label, s': Sys)
    requires Inv(l, s) && r !in s.refs && b < |s.disk| && (B.Cached(s.cache, DEV, b) || !B.Exhausted(s.cache))
    ensures Next(l, s, s', a) && r in s'.refs && s'.refs[r].blockno == b && s'.refs[r].phase == Waiting
  {
    assert B.WellFormed(s.cache);
    hide Inv;
    var i, cache := B.GetSomething(s.cache, DEV, b);
    a := LGet(r, b, i);
    s' := s.(cache := cache, refs := s.refs[r := Ref(i, b, Waiting)]);
  }

  /** `begin_op` and `end_op` never fail. */
  lemma OpCanGo(l: Layout, s: Sys, a: Act) returns (s': Sys)
    requires Inv(l, s) && (a.BeginOp? || a.EndOp?)
    ensures Next(l, s, s', LOp(a))
    ensures a.EndOp? ==> a.op !in s'.space.ops
    ensures a.BeginOp? && MayBegin(s.space.log) ==> a.op in s'.space.ops
  {
    hide CacheInv, DiskInv, LogSpace.Inv;
    StepKeepsInv(s.space, l.size, a);
    var space := LogSpace.Step(s.space, l.size, a).s;
    var starts := space.log.committing && !s.space.log.committing;
    s' := s.(space := space, pc := if !starts then s.pc else if space.log.blocks == [] then Cleared else Copying(0));
  }

  /** An operation with allowance left can log any home block it has read, when the log is larger than LOGSIZE. */
  lemma ChangeCanGo(l: Layout, s: Sys, r: nat, op: nat, v: Block) returns (s': Sys)
    requires Inv(l, s) && l.size > LOGSIZE && Reading(s, r) && Home(l, |s.disk|, s.refs[r].blockno) && |v| == WORDS
    requires op in s.space.ops && HasSpare(s.space, LogWrite(op, s.refs[r].blockno))
    ensures Next(l, s, s', LChange(r, op, v)) && s'.logical == s.logical[s.refs[r].blockno := v]
  {
    hide Inv, LogSpace.Inv, Of, HasSpare, WithinBudget, Home;
    BreadIsCurrent(l, s, r);
    SpaceHolds(l, s);
    var i, b := s.refs[r].buf, s.refs[r].blockno;
    LogHasRoom(l, s.space, op, b);
    var pin := if b in s.space.log.blocks then 0 else 1;
    s' := WithBuf(s, i, s.cache.bufs[i].(data := v, refcnt := s.cache.bufs[i].refcnt + pin))
          .(space := LogSpace.Step(s.space, l.size, LogWrite(op, b)).s, logical := s.logical[b := v]);
  }

  lemma SpaceHolds(l: Layout, s: Sys)
    requires Inv(l, s)
    ensures LogSpace.Inv(s.space)
  {
    hide CacheInv, DiskInv;
  }

  lemma LogHasRoom(l: Layout, s: LogSpace.State, op: nat, b: nat)
    requires LogSpace.Inv(s) && l.size > LOGSIZE && op in s.ops && HasSpare(s, LogWrite(op, b))
    ensures WithinBudget(s, LogWrite(op, b)) && LogSpace.Step(s, l.size, LogWrite(op, b)).Running?
  {
    assert |Of(s.used, op) + {(op, b)}| <= |Of(s.used, op)| + 1;
    SpareSlot(s, op);
    assert s.ops == s.ops - {op} + {op};
  }

  /** Power can fail in any state. */
  lemma CrashCanCome(l: Layout, s: Sys, ds: seq<Disk>) returns (s': Sys)
    requires Inv(l, s) && CrashChain(l, ds) && ds[0] == s.disk
    ensures Next(l, s, s', LCrash(ds))
  {
    CrashRestoresStable(l, s, ds);
    var d := Recovered(l, ds[|ds| - 1]);
    s' := Sys(d, B.Cache([], []), map[], INIT, Idle, d, d);
  }
}
