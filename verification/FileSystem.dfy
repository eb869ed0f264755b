/** The block allocator, block mapping and file I/O of kernel/fs.c, and `filewrite` of kernel/file.c, on a
    mounted disk. `calls` records the block numbers handed to `log_write`. */
module FileSystem {
  import opened Blocks
  import opened Common
  import opened Fs
  import opened FsSpace
  import LogSpace

  const IPB: nat := 16       // inodes per block
  const CHUNK: nat := 3 * BSIZE // most bytes `filewrite` writes in one transaction

  lemma SameBitmapBlock(base: nat, bi: nat)
    requires base % BPB == 0 && bi < BPB
    ensures (base + bi) / BPB == base / BPB && (base + bi) % BPB == bi && (base + BPB) % BPB == 0
  {
  }

  // ----- Budget of one transaction -----

  /** A transaction leaves room for the inode, the indirect block, two blocks of slop and two blocks for each block of
      data. */
  lemma ChunkLeavesRoom()
    ensures CHUNK == (LogSpace.MAXOPBLOCKS - 1 - 1 - 2) / 2 * BSIZE
  {
  }

  /** Whenever another block is logged, fewer than the reserved number of distinct blocks were logged before. */
  ghost predicate FitsBudget(cs: seq<nat>) {
    forall j :: 0 <= j < |cs| ==> |Elems(cs[..j])| < LogSpace.MAXOPBLOCKS
  }

  lemma BudgetNone()
    ensures FitsBudget([])
  {
  }

  lemma CardSub(a: set<nat>, b: set<nat>)
    requires a <= b
    ensures |a| <= |b|
  {
    assert b == a + (b - a);
  }

  /** Nine blocks and then the inode's own. */
  lemma BudgetOf(body: seq<nat>, last: nat, s: set<nat>)
    requires (forall c :: c in body ==> c in s) && |s| < LogSpace.MAXOPBLOCKS
    ensures FitsBudget(body + [last])
  {
    var cs := body + [last];
    forall j | 0 <= j < |cs| ensures |Elems(cs[..j])| < LogSpace.MAXOPBLOCKS {
      assert forall c :: c in cs[..j] ==> c in body;
      CardSub(Elems(cs[..j]), s);
    }
  }

  /** An operation that fits its budget always has a spare slot in the log. */
  lemma BudgetGivesSpare(cs: seq<nat>, s: LogSpace.State, op: nat, j: nat)
    requires FitsBudget(cs) && j < |cs|
    requires LogSpace.Of(s.used, op) <= Tagged(op, Elems(cs[..j]))
    ensures LogSpace.HasSpare(s, LogSpace.LogWrite(op, cs[j]))
  {
    PairCard(op, Elems(cs[..j]));
    var used, all := LogSpace.Of(s.used, op), Tagged(op, Elems(cs[..j]));
    assert all == used + (all - used);
  }

  function Tagged(op: nat, s: set<nat>): set<(nat, nat)> {
    set c | c in s :: (op, c)
  }

  lemma {:induction false} PairCard(op: nat, s: set<nat>)
    ensures |Tagged(op, s)| == |s|
  {
    if s == {} {
      assert Tagged(op, s) == {};
    } else {
      var x :| x in s;
      PairCard(op, s - {x});
      assert Tagged(op, s) == Tagged(op, s - {x}) + {(op, x)};
    }
  }

  /** What operation `op` has logged since it last ended. */
  function Calls(acts: seq<LogSpace.Act>, op: nat): seq<nat> {
    if acts == [] then []
    else
      var before := Calls(acts[..|acts| - 1], op);
      match acts[|acts| - 1]
      case LogWrite(o, b) => if o == op then before + [b] else before
      case EndOp(o) => if o == op then [] else before
      case _ => before
  }

  lemma CallsNext(acts: seq<LogSpace.Act>, a: LogSpace.Act, op: nat)
    ensures Calls(acts + [a], op) ==
            if a == LogSpace.EndOp(op) then [] else if a.LogWrite? && a.op == op then Calls(acts, op) + [a.b]
                else Calls(acts, op)
  {
    assert (acts + [a])[..|acts|] == acts;
  }

  /** Every operation of the run fits its budget, however the operations interleave. */
  ghost predicate EachFits(acts: seq<LogSpace.Act>) {
    forall n, op :: 0 <= n <= |acts| ==> FitsBudget(Calls(acts[..n], op))
  }

  ghost predicate Tracked(s: LogSpace.State, acts: seq<LogSpace.Act>) {
    forall op :: LogSpace.Of(s.used, op) <= Tagged(op, Elems(Calls(acts, op)))
  }

  lemma TrackedStep(s: LogSpace.State, size: int, acts: seq<LogSpace.Act>, a: LogSpace.Act)
    requires LogSpace.Inv(s) && Tracked(s, acts) && LogSpace.Step(s, size, a).Running?
    ensures Tracked(LogSpace.Step(s, size, a).s, acts + [a])
  {
    var s' := LogSpace.Step(s, size, a).s;
    forall op ensures LogSpace.Of(s'.used, op) <= Tagged(op, Elems(Calls(acts + [a], op))) {
      CallsNext(acts, a, op);
      assert LogSpace.Of(s.used, op) <= Tagged(op, Elems(Calls(acts, op)));
      hide Calls;
      forall p | p in LogSpace.Of(s'.used, op) ensures p in Tagged(op, Elems(Calls(acts + [a], op))) {
        assert p in s.used ==> p in LogSpace.Of(s.used, op);
        assert p.1 in Elems(Calls(acts + [a], op));
      }
    }
  }

  lemma NextHasSpare(s: LogSpace.State, acts: seq<LogSpace.Act>, a: LogSpace.Act)
    requires Tracked(s, acts) && (a.LogWrite? ==> FitsBudget(Calls(acts + [a], a.op)))
    ensures LogSpace.HasSpare(s, a) && LogSpace.WithinBudget(s, a)
  {
    if a.LogWrite? {
      var cs := Calls(acts, a.op);
      CallsNext(acts, a, a.op);
      assert (cs + [a.b])[..|cs|] == cs;
      BudgetGivesSpare(cs + [a.b], s, a.op, |cs|);
      assert |LogSpace.Of(s.used, a.op) + {(a.op, a.b)}| <= |LogSpace.Of(s.used, a.op)| + 1;
    }
  }

  lemma {:induction false} FitsFrom(s: LogSpace.State, size: int, done: seq<LogSpace.Act>, rest: seq<LogSpace.Act>)
    requires LogSpace.Inv(s) && Tracked(s, done) && EachFits(done + rest)
    ensures LogSpace.AlwaysSpare(s, size, rest)
    decreases |rest|
  {
    hide LogSpace.Inv, LogSpace.Step, LogSpace.HasSpare, LogSpace.WithinBudget, Tracked, FitsBudget, Calls;
    if rest != [] {
      var a := rest[0];
      assert (done + rest)[..|done| + 1] == done + [a] && done + rest == done + [a] + rest[1..];
      NextHasSpare(s, done, a);
      LogSpace.StepKeepsInv(s, size, a);
      var o := LogSpace.Step(s, size, a);
      if o.Running? {
        TrackedStep(s, size, done, a);
        FitsFrom(o.s, size, done + [a], rest[1..]);
      }
    }
  }

  /** Operations that each fit their budget never overflow the log, whatever their interleaving. */
  lemma BudgetedRunsSafe(size: int, acts: seq<LogSpace.Act>)
    requires EachFits(acts) && size > LogSpace.LOGSIZE
    ensures LogSpace.AlwaysSpare(LogSpace.INIT, size, acts)
    ensures LogSpace.Exec(LogSpace.INIT, size, acts).Running?
            && LogSpace.Inv(LogSpace.Exec(LogSpace.INIT, size, acts).s)
  {
    assert [] + acts == acts;
    FitsFrom(LogSpace.INIT, size, [], acts);
    LogSpace.SpareRunsSafe(LogSpace.INIT, size, acts);
  }

  /** The calls after `old` are all in `s`. */
  ghost predicate Logs(was: seq<nat>, now: seq<nat>, s: set<nat>) {
    was <= now && forall j :: |was| <= j < |now| ==> now[j] in s
  }

  function Min(a: int, b: int): int {
    if a < b then a else b
  }

  /** The test `off + n < off` on 32-bit words. */
  predicate Wraps(off: nat, n: nat): (r: bool)
    requires off < 0x1_0000_0000 && n < 0x1_0000_0000
    ensures r == (off + n >= 0x1_0000_0000)
  {
    (off + n) % 0x1_0000_0000 < off
  }

  function BlockOf(o: nat): (n: nat)
    ensures o < MAXFILE * BSIZE ==> n < MAXFILE
  {
    o / BSIZE
  }

  function Within(o: nat): (at: nat)
    ensures at < BSIZE
  {
    o % BSIZE
  }

  /** How many bytes of the block follow position `o`. */
  function Left(o: nat): (m: nat)
    ensures 0 < m == BSIZE - Within(o)
  {
    BSIZE - o % BSIZE
  }

  /** How many of `k` bytes written from position `off` come before the last block boundary among them. */
  function Whole(off: nat, k: nat): (r: nat)
    ensures r <= k && (r == k <==> k == 0 || (off + k) % BSIZE == 0)
  {
    if Within(off + k) <= k then k - Within(off + k) else 0
  }

  /** One past the last block that a write of `n` bytes gets to when its source ends after `k`. */
  function EndBlock(off: nat, k: nat, n: nat): (hi: nat)
    requires k <= n
    ensures BlockOf(off) <= hi && (off + n <= MAXFILE * BSIZE && off <= MAXFILE * BSIZE - 1 ==> hi <= MAXFILE)
  {
    if n == 0 then BlockOf(off) else BlockOf(off + Min(k, n - 1)) + 1
  }

  /** The same when the bytes are written in chunks: a chunk that is complete is reported too. */
  function Reported(off: nat, k: nat): (r: nat)
    ensures r <= k && (r == k <==> k % CHUNK == 0 || (off + k) % BSIZE == 0)
  {
    var c := k / CHUNK * CHUNK;
    c + Whole(off + c, k - c)
  }

  /** A position below the size is in a block that is there. */
  lemma ReadMapped(sb: Super, im: Image, i: nat, o: nat)
    requires Inv(sb, im, {}) && i in im.inodes && o < im.inodes[i].size
    ensures Addr(im.blocks, im.inodes[i], o / BSIZE) != 0
  {
    assert BlockMapped(im, i, o / BSIZE);
  }

  /** So is a position inside a block that starts below the size. */
  lemma InsideMapped(sb: Super, im: Image, i: nat, o: nat)
    requires Inv(sb, im, {}) && i in im.inodes && o <= im.inodes[i].size && Mis(o)
    ensures BlockOf(o) < MAXFILE && Addr(im.blocks, im.inodes[i], BlockOf(o)) != 0
  {
    assert o / BSIZE * BSIZE + o % BSIZE == o;
    assert BlockMapped(im, i, o / BSIZE);
  }

  lemma SameBlock(o: nat, x: nat)
    requires o % BSIZE + x < BSIZE
    ensures (o + x) / BSIZE == o / BSIZE && (o + x) % BSIZE == o % BSIZE + x
  {
  }

  lemma ReadChunk(sb: Super, im: Image, i: nat, o: nat, m: nat)
    requires Inv(sb, im, {}) && i in im.inodes && o + m <= im.inodes[i].size && o % BSIZE + m <= BSIZE && 0 < m
    ensures var a := Addr(im.blocks, im.inodes[i], o / BSIZE);
            a < |im.blocks| && im.blocks[a][o % BSIZE..o % BSIZE + m] == Contents(im, i)[o..o + m]
  {
    hide Owned, Mapped, BitsExact, BitExact, Addr;
    ReadMapped(sb, im, i, o);
    AddrOwned(sb, im, i, o / BSIZE);
    var a, at, c := Addr(im.blocks, im.inodes[i], o / BSIZE), o % BSIZE, Contents(im, i);
    var got, want := im.blocks[a][at..at + m], c[o..o + m];
    forall x | 0 <= x < m ensures got[x] == want[x] {
      SameBlock(o, x);
      assert want[x] == c[o + x] == ByteAt(im.blocks, im.inodes[i], o + x);
    }
  }

  /** `len` bytes of file `i` from `off` on. */
  ghost function Range(im: Image, i: nat, off: nat, len: nat): (bs: seq<Byte>)
    requires i in im.inodes && |im.inodes[i].addrs| == NDIRECT + 1 && off + len <= im.inodes[i].size <= MAXFILE * BSIZE
    ensures |bs| == len
  {
    Contents(im, i)[off..off + len]
  }

  /** Reading on from `tot`: any part of the next chunk extends what was read. */
  lemma ReadStep(sb: Super, im: Image, i: nat, off: nat, len: nat, tot: nat, m: nat, k: nat)
    requires Inv(sb, im, {}) && i in im.inodes && off + len <= im.inodes[i].size
    requires tot + m <= len && k <= m && 0 < m <= Left(off + tot)
    ensures BlockOf(off + tot) < MAXFILE
    ensures var a, at, want := Addr(im.blocks, im.inodes[i], BlockOf(off + tot)), Within(off + tot),
            Range(im, i, off, len);
            a != 0 && a < |im.blocks| && want[..tot] + im.blocks[a][at..at + k] == want[..tot + k]
  {
    hide Owned, Mapped, BitsExact, Addr, Contents;
    ReadMapped(sb, im, i, off + tot);
    ReadChunk(sb, im, i, off + tot, m);
    ContentsLength(im, i);
    var a, at := Addr(im.blocks, im.inodes[i], BlockOf(off + tot)), Within(off + tot);
    SliceAppends(Contents(im, i), off, len, tot, m, k, im.blocks[a], at);
  }

  lemma SliceOfSlice(c: seq<Byte>, off: nat, len: nat, tot: nat, m: nat)
    requires off + len <= |c| && tot + m <= len
    ensures c[off..off + len][tot..tot + m] == c[off + tot..off + tot + m]
  {
    var want := c[off..off + len];
    var l, r := want[tot..tot + m], c[off + tot..off + tot + m];
    forall x | 0 <= x < m ensures l[x] == r[x] {
      assert l[x] == want[tot + x] == c[off + (tot + x)];
    }
  }

  lemma SliceAppends(c: seq<Byte>, off: nat, len: nat, tot: nat, m: nat, k: nat, b: seq<Byte>, at: nat)
    requires off + len <= |c| && tot + m <= len && k <= m && at + m <= |b|
             && b[at..at + m] == c[off + tot..off + tot + m]
    ensures var want := c[off..off + len]; want[..tot] + b[at..at + k] == want[..tot + k]
  {
    var want, piece, chunk := c[off..off + len], b[at..at + k], b[at..at + m];
    assert piece == chunk[..k];
    SliceOfSlice(c, off, len, tot, m);
    assert want[tot..tot + k] == want[tot..tot + m][..k];
    assert want[..tot + k] == want[..tot] + want[tot..tot + k];
  }

  lemma Untouched(sb: Super, im: Image, i: nat)
    requires Inv(sb, im, {})
    ensures OthersKept(im, im, i)
  {
    NothingChanged(sb, im, i);
  }

  /** The requests `writei` turns down. */
  predicate Rejected(size: nat, off: nat, n: nat) {
    off > size || off + n >= 0x1_0000_0000 || off + n > MAXFILE * BSIZE
  }

  ghost function Total(txs: seq<seq<nat>>): seq<nat> {
    if txs == [] then [] else Total(txs[..|txs| - 1]) + txs[|txs| - 1]
  }

  /** `filewrite` is between two chunks. */
  ghost predicate InChunks(done: nat, n: int) {
    done == n || done % CHUNK == 0
  }

  lemma ChunkStep(off: nat, done: nat, n: int, k: nat)
    requires InChunks(done, n) && done < n && done <= k <= n
    ensures InChunks(done + Min(n - done, CHUNK), n)
    ensures k - done < Min(n - done, CHUNK) ==> Reported(off, k) == done + Whole(off + done, k - done)
  {
    hide Whole;
    assert done == done / CHUNK * CHUNK;
    if k - done < Min(n - done, CHUNK) {
      assert k / CHUNK == done / CHUNK;
    }
  }

  lemma TotalNone()
    ensures Total([]) == []
  {
  }

  lemma TotalNext(txs: seq<seq<nat>>, tx: seq<nat>)
    ensures Total(txs + [tx]) == Total(txs) + tx
  {
    assert (txs + [tx])[..|txs|] == txs;
  }

  /** File `i` is its old self with `src[..put]` laid over it at `off`, and reaches at least `off + done`. */
  ghost predicate FileHas(im: Image, im': Image, i: nat, off: nat, src: seq<Byte>, done: nat, put: nat)
    requires done <= put <= |src|
  {
    && i in im.inodes && |im.inodes[i].addrs| == NDIRECT + 1 && off <= im.inodes[i].size <= MAXFILE * BSIZE
    && i in im'.inodes && |im'.inodes[i].addrs| == NDIRECT + 1 && im'.inodes[i].size <= MAXFILE * BSIZE
    && im'.inodes[i].size == Max(im.inodes[i].size, off + done)
    && Contents(im', i) == Overlaid(Contents(im, i), off, src[..put])[..im'.inodes[i].size]
  }

  lemma SameSlice(src: seq<Byte>, done: nat, k: nat, p: nat)
    requires p <= k && done + k <= |src|
    ensures src[done..done + k][..p] == src[done..done + p]
  {
  }

  lemma FileSize(im: Image, im': Image, i: nat, off: nat, src: seq<Byte>, done: nat, put: nat)
    requires done <= put <= |src| && FileHas(im, im', i, off, src, done, put)
    ensures i in im.inodes && i in im'.inodes && |im'.inodes[i].addrs| == NDIRECT + 1
    ensures off <= im.inodes[i].size <= MAXFILE * BSIZE && im'.inodes[i].size == Max(im.inodes[i].size, off + done)
  {
  }

  lemma FileStart(sb: Super, im: Image, i: nat, off: nat, src: seq<Byte>)
    requires Inv(sb, im, {}) && i in im.inodes
    ensures off <= im.inodes[i].size ==> FileHas(im, im, i, off, src, 0, 0)
  {
  }

  /** One more chunk, of which `p` bytes were put down and `r` reported. */
  lemma FileMore(sb: Super, im: Image, im1: Image, im2: Image, i: nat, off: nat, src: seq<Byte>, done: nat, r: nat,
                 p: nat)
    requires done + r <= done + p <= |src| && FileHas(im, im1, i, off, src, done, done) && Inv(sb, im2, {})
             && i in im2.inodes
    requires im2.inodes[i].size == Max(im1.inodes[i].size, off + done + r)
    requires Contents(im2, i) == Overlaid(Contents(im1, i), off + done, src[done..done + p])[..im2.inodes[i].size]
    ensures FileHas(im, im2, i, off, src, done + r, done + p)
  {
    hide Owned, Mapped, BitsExact, Contents, Overlaid;
    ContentsLength(im, i);
    var c := Contents(im, i);
    var o1 := Overlaid(c, off, src[..done]);
    OverlaidTwice(c, off, src[..done], src[done..done + p]);
    assert |o1| == im1.inodes[i].size;
    assert Contents(im1, i) == o1[..|o1|] == o1;
    assert src[..done] + src[done..done + p] == src[..done + p];
  }

  lemma ContentsLength(im: Image, i: nat)
    requires i in im.inodes && |im.inodes[i].addrs| == NDIRECT + 1 && im.inodes[i].size <= MAXFILE * BSIZE
    ensures |Contents(im, i)| == im.inodes[i].size
  {
  }

  // ----- Counting logged blocks -----

  /** The write starts inside a block. */
  predicate Mis(off: nat) {
    off % BSIZE != 0
  }

  /** Data blocks and bitmap blocks logged in `t` rounds of `writei`. */
  datatype Tally = Tally(data: set<nat>, maps: set<nat>, t: nat)

  const NOTHING := Tally({}, {}, 0)

  function Next(y: Tally, addr: nat, more: set<nat>): Tally {
    Tally(if addr == 0 then y.data else y.data + {addr}, y.maps + more, y.t + 1)
  }

  /** The calls since `was` are accounted for: a data block a round, a bitmap block for each new block, and the
      indirect block. A block the write starts inside was there already. */
  ghost predicate Account(off: nat, n: nat, was: seq<nat>, now: seq<nat>, ind0: nat, ind: nat, y: Tally) {
    && Logs(was, now, Touched(y.data + y.maps, 0, ind)) && |y.data| <= y.t && (ind0 != 0 ==> ind == ind0)
    && |y.maps| <= (if y.t > 0 && Mis(off) then y.t - 1 else y.t) + (if ind0 == 0 != ind then 1 else 0)
    && (n <= CHUNK ==> y.t <= if Mis(off) then 4 else 3)
  }

  /** Every round but the last ends at a block boundary. */
  ghost predicate AtBoundary(off: nat, n: nat, tot: nat, y: Tally) {
    && (y.t == 0 ==> tot == 0) && (tot < n ==> y.t * BSIZE == if y.t == 0 then 0 else off % BSIZE + tot)
  }

  lemma AccountStart(off: nat, n: nat, was: seq<nat>, ind: nat)
    ensures Account(off, n, was, was, ind, ind, NOTHING) && AtBoundary(off, n, 0, NOTHING)
  {
  }

  /** A copy that faults after `k` bytes in all was the copy of the block they end in. */
  lemma FaultAt(off: nat, n: nat, tot: nat, y: Tally, k: nat)
    requires AtBoundary(off, n, tot, y) && tot <= k < n && k - tot < Min(n - tot, Left(off + tot))
    ensures tot == Whole(off, k)
  {
    if y.t == 0 {
      assert k < BSIZE - off % BSIZE;
      assert (off + k) % BSIZE == off % BSIZE + k;
    } else {
      assert off + tot == (off / BSIZE + y.t) * BSIZE && k - tot < BSIZE;
      assert (off + k) % BSIZE == k - tot;
    }
  }

  lemma RoundBlock(off: nat, n: nat, tot: nat, y: Tally)
    requires AtBoundary(off, n, tot, y) && tot < n
    ensures BlockOf(off + tot) == BlockOf(off) + y.t && (tot == 0 || (off + tot) % BSIZE == 0)
  {
    if y.t > 0 {
      assert off + tot == (off / BSIZE + y.t) * BSIZE;
    }
  }

  /** The blocks a round can be about. */
  lemma RoundEnd(off: nat, n: nat, tot: nat, k: nat)
    requires tot <= k <= n && tot < n
    ensures BlockOf(off + tot) + 1 <= EndBlock(off, k, n)
    ensures k - tot < Min(n - tot, Left(off + tot)) ==>
              BlockOf(off + k) == BlockOf(off + tot) && EndBlock(off, k, n) == BlockOf(off + tot) + 1
    ensures k == n && n - tot <= Left(off + tot) ==> EndBlock(off, k, n) == BlockOf(off + tot) + 1
  {
    var x := Min(k, n - 1);
    assert (off + tot) / BSIZE <= (off + x) / BSIZE;
    if x - tot < Left(off + tot) {
      assert (off + tot) % BSIZE + (x - tot) < BSIZE;
      assert off + x == (off + tot) / BSIZE * BSIZE + ((off + tot) % BSIZE + (x - tot));
    }
  }

  // ----- How far a write gets -----

  /** What a write from `off` whose source ends after `k` of `n` bytes does on disk `im`. It runs out of blocks
      exactly when fewer are free than the blocks it gets to lack, and then stops at the first block it cannot
      have. Otherwise it puts down all `k` bytes, and reports those before the block in which the copy failed. */
  ghost predicate Stops(sb: Super, im: Image, i: nat, off: nat, k: nat, n: nat, r: nat, put: nat, full: bool)
    requires k <= n
  {
    var lo, free := BlockOf(off), Free(sb, im.blocks);
    && (full <==> free < Needs(im, i, lo, EndBlock(off, k, n)))
    && (full ==> put == r < n && r <= k && StopsAt(im, i, off, r, free))
    && (!full ==> put == k && r == if k == n then n else Whole(off, k))
  }

  /** The blocks before position `off + r` can be had, and the one there cannot. */
  ghost predicate StopsAt(im: Image, i: nat, off: nat, r: nat, free: nat) {
    && (r == 0 || (off + r) % BSIZE == 0)
    && Needs(im, i, BlockOf(off), BlockOf(off + r)) <= free < Needs(im, i, BlockOf(off), BlockOf(off + r) + 1)
  }

  /** Bytes are put down and not reported exactly when there are blocks enough and the source ends inside one. */
  lemma UnreportedExactly(sb: Super, im: Image, i: nat, off: nat, k: nat, n: nat, r: nat, put: nat, full: bool)
    requires k <= n && Stops(sb, im, i, off, k, n, r, put, full)
    ensures put != r <==> Needs(im, i, BlockOf(off), EndBlock(off, k, n)) <= Free(sb, im.blocks)
                          && 0 < k < n && (off + k) % BSIZE != 0
  {
    hide Needs, Free, EndBlock;
  }

  /** Every block that changed was logged, but for one: a block that was there before and in which bytes are put
      down and not reported. That one was not logged. */
  ghost predicate WriteLogs(im: Image, im': Image, i: nat, off: nat, k: nat, torn: bool, was: seq<nat>, now: seq<nat>) {
    var ex := if torn then BlockAt(im, i, BlockOf(off + k)) else {};
    Logged(im.blocks, im'.blocks, was, now, ex) && forall b :: b in ex ==> b !in Since(was, now)
  }

  lemma BoundaryStep(off: nat, n: nat, tot: nat, m: nat, y: Tally, y': Tally)
    requires AtBoundary(off, n, tot, y) && tot < n && (m == 0 || m == Min(n - tot, Left(off + tot))) && y'.t == y.t + 1
    ensures (n <= CHUNK ==> y'.t <= if Mis(off) then 4 else 3) && (m != 0 ==> AtBoundary(off, n, tot + m, y'))
  {
    if y.t > 0 {
      assert (off + tot) % BSIZE == 0 by {
        assert off + tot == (off / BSIZE + y.t) * BSIZE;
      }
    }
  }

  lemma LogsStep(was: seq<nat>, now: seq<nat>, now': seq<nat>, ind0: nat, ind: nat, ind': nat, y: Tally,
                 more: set<nat>, addr: nat)
    requires Logs(was, now, Touched(y.data + y.maps, 0, ind)) && (ind != 0 ==> ind' == ind)
    requires Logs(now, now', Touched(more, addr, ind'))
    ensures var y' := Next(y, addr, more); Logs(was, now', Touched(y'.data + y'.maps, 0, ind'))
  {
  }

  /** One round: `more` are the bitmap blocks of a `bmap` that returned `addr`. */
  lemma AccountStep(off: nat, n: nat, tot: nat, m: nat, was: seq<nat>, now: seq<nat>, now': seq<nat>,
                    ind0: nat, ind: nat, ind': nat, y: Tally, more: set<nat>, addr: nat, there: bool)
    requires Account(off, n, was, now, ind0, ind, y) && AtBoundary(off, n, tot, y) && tot < n
    requires m == 0 || m == Min(n - tot, Left(off + tot))
    requires Logs(now, now', Touched(more, addr, ind')) && (ind != 0 ==> ind' == ind)
    requires |more| <= (if there then 0 else 1) + (if ind == 0 != ind' then 1 else 0)
    requires y.t == 0 && Mis(off) ==> there
    ensures var y' := Next(y, addr, more);
            Account(off, n, was, now', ind0, ind', y') && (m != 0 ==> AtBoundary(off, n, tot + m, y'))
  {
    hide Mis, AtBoundary, Left, Logs;
    LogsStep(was, now, now', ind0, ind, ind', y, more, addr);
    BoundaryStep(off, n, tot, m, y, Next(y, addr, more));
  }

  lemma AccountFits(off: nat, n: nat, was: seq<nat>, now: seq<nat>, ind0: nat, ind: nat, y: Tally, last: nat)
    requires Account(off, n, was, now, ind0, ind, y)
    ensures was <= now < now + [last] && (n <= CHUNK ==> FitsBudget((now + [last])[|was|..]))
  {
    if n <= CHUNK {
      var s := Touched(y.data + y.maps, 0, ind);
      assert |s| <= |y.data| + |y.maps| + 1 by {
        CardSub({0, ind} - {0}, {ind});
      }
      var body := now[|was|..];
      assert (now + [last])[|was|..] == body + [last];
      BudgetOf(body, last, s);
    }
  }

  /** `maps`, and the blocks `a` and `b` where there is one. */
  function Touched(maps: set<nat>, a: nat, b: nat): set<nat> {
    maps + ({a, b} - {0})
  }

  lemma SplicedNothing(b: Block, at: nat, bs: seq<Byte>)
    requires at <= BSIZE && bs == []
    ensures Spliced(b, at, bs) == b
  {
  }

  lemma FirstBlock(off: nat)
    ensures off <= MAXFILE * BSIZE ==> BlockOf(off) <= MAXFILE
  {
  }

  lemma EndOfNothing(off: nat, k: nat, n: nat)
    requires k <= n
    ensures n == 0 ==> EndBlock(off, k, n) == BlockOf(off)
  {
  }

  lemma RoundsFrom(sb: Super, im0: Image, im: Image, i: nat, lo: nat, bn: nat, was: seq<nat>, now: seq<nat>)
    requires Reached(sb, im0, im, i, lo, bn, was, now) && Logged(im0.blocks, im.blocks, was, now, {})
    ensures Rounds(sb, im0, im, i, lo, bn, was, now)
  {
  }

  /** The last round of a write that stops early. */
  lemma RoundStops(sb: Super, im: Image, im': Image, i: nat, off: nat, k: nat, n: nat, tot: nat, put: nat, y: Tally,
                   full: bool, was: seq<nat>, now: seq<nat>)
    requires AtBoundary(off, n, tot, y) && tot <= k <= n && tot < n
    requires if full then put == tot else put == k < n && k - tot < Min(n - tot, Left(off + tot))
    requires Needs(im, i, BlockOf(off), BlockOf(off + tot)) <= Free(sb, im.blocks)
    requires full <==> Free(sb, im.blocks) < Needs(im, i, BlockOf(off), BlockOf(off + tot) + 1)
    requires !full ==> Reached(sb, im, im', i, BlockOf(off), BlockOf(off + tot) + 1, was, now)
    requires var ex := if put > tot then BlockAt(im, i, BlockOf(off + tot)) else {};
             Logged(im.blocks, im'.blocks, was, now, ex) && forall b :: b in ex ==> b !in Since(was, now)
    ensures Stops(sb, im, i, off, k, n, tot, put, full) && WriteLogs(im, im', i, off, k, put != tot, was, now)
    ensures !full ==> Reached(sb, im, im', i, BlockOf(off), EndBlock(off, k, n), was, now)
  {
    hide Needs, Free, Reached, Logged, Since, BlockAt, BlockOf, EndBlock, Whole, Left, AtBoundary;
    RoundBlock(off, n, tot, y);
    RoundEnd(off, n, tot, k);
    NeedsGrow(im, i, BlockOf(off), BlockOf(off + tot) + 1, EndBlock(off, k, n));
    if !full {
      FaultAt(off, n, tot, y, k);
    }
  }

  /** All of it was written. */
  lemma WholeWrite(sb: Super, im: Image, im': Image, i: nat, off: nat, n: nat, t: nat, was: seq<nat>, now: seq<nat>)
    requires Rounds(sb, im, im', i, BlockOf(off), BlockOf(off) + t, was, now) && BlockOf(off) + t == EndBlock(off, n, n)
    ensures Stops(sb, im, i, off, n, n, n, n, false) && WriteLogs(im, im', i, off, n, false, was, now)
    ensures Reached(sb, im, im', i, BlockOf(off), EndBlock(off, n, n), was, now)
  {
    hide Free, Needs, Logged;
  }

  /** The size update and `iupdate` after the loop. */
  lemma Closing(sb: Super, im: Image, im': Image, i: nat, off: nat, k: nat, n: nat, r: nat, put: nat, full: bool,
                size: nat, was: seq<nat>, now: seq<nat>, ib: nat)
    requires k <= n && Inv(sb, im', {}) && i in im'.inodes && Inv(sb, Resized(im', i, size), {}) && Inv(sb, im, {})
    requires ib < sb.nmeta && WriteLogs(im, im', i, off, k, put != r, was, now)
    requires !full ==> Reached(sb, im, im', i, BlockOf(off), EndBlock(off, k, n), was, now)
    ensures WriteLogs(im, Resized(im', i, size), i, off, k, put != r, was, now + [ib])
    ensures !full ==> Reached(sb, im, Resized(im', i, size), i, BlockOf(off), EndBlock(off, k, n), was, now + [ib])
  {
    hide Owned, Mapped, BitsExact, Free, Needs, Logged, BlockOf, EndBlock, Waits;
    var ex := if put != r then BlockAt(im, i, BlockOf(off + k)) else {};
    LoggedCall(im.blocks, im'.blocks, was, now, ib, ex);
    assert was <= now by { LoggedGrows(im.blocks, im'.blocks, was, now, ex); }
    SinceThen(was, now, now + [ib]);
    SinceAppended(now, [ib]);
    DataOnly(sb, im, i, BlockOf(off + k));
    var im2 := Resized(im', i, size);
    assert forall c :: 0 <= c < MAXFILE ==> Addr(im2.blocks, im2.inodes[i], c) == Addr(im'.blocks, im'.inodes[i], c);
    forall c | 0 <= c < MAXFILE ensures Addr(im'.blocks, im'.inodes[i], c) != ib || ib == 0 {
      DataOnly(sb, im', i, c);
    }
    if !full {
      ReachedStill(sb, im, im', im2, i, BlockOf(off), EndBlock(off, k, n), was, now, [ib]);
    }
  }

  lemma FirstByte(sb: Super, im: Image, i: nat)
    requires Inv(sb, im, {}) && i in im.inodes && im.inodes[i].size >= 2
    ensures !Rejected(im.inodes[i].size, 0, 2) && sb.nmeta <= AddrOf(im, i, 0) < sb.size == |im.blocks|
    ensures Contents(im, i)[0] == im.blocks[AddrOf(im, i, 0)][0] && Needs(im, i, 0, 1) == 0
  {
    assert BlockMapped(im, i, 0);
    DataOnly(sb, im, i, 0);
    assert Holes(im, i, 0, 0) == 0;
  }

  lemma TornStops(sb: Super, im: Image, i: nat, r: nat, put: nat, full: bool)
    requires Needs(im, i, 0, 1) == 0 && Stops(sb, im, i, 0, 1, 2, r, put, full)
    ensures !full && put == 1 && r == 0
  {
    assert EndBlock(0, 1, 2) == 1 && BlockOf(0) == 0;
    assert Whole(0, 1) == 0;
  }

  lemma TornFirst(sb: Super, im: Image, im': Image, i: nat, x: Byte, was: seq<nat>, now: seq<nat>)
    requires Inv(sb, im, {}) && Inv(sb, im', {}) && i in im.inodes && i in im'.inodes && im.inodes[i].size >= 2
    requires im'.inodes[i].size == im.inodes[i].size && Contents(im, i)[0] != x
    requires Contents(im', i) == Overlaid(Contents(im, i), 0, [x])[..im.inodes[i].size]
    requires Reached(sb, im, im', i, BlockOf(0), EndBlock(0, 1, 2), was, now)
    requires WriteLogs(im, im', i, 0, 1, true, was, now)
    ensures var b := AddrOf(im, i, 0);
            b < |im'.blocks| == |im.blocks| && im'.blocks[b] != im.blocks[b] && was <= now && b !in now[|was|..]
  {
    hide Owned, Mapped, BitsExact, Reached, EndBlock, Logged, Addr;
    FirstByte(sb, im, i);
    FirstByte(sb, im', i);
    SameAddr(sb, im, im', i, BlockOf(0), EndBlock(0, 1, 2), 0, was, now);
    var ex := BlockAt(im, i, BlockOf(0 + 1));
    assert BlockOf(1) == 0 && AddrOf(im, i, 0) in ex;
    LoggedGrows(im.blocks, im'.blocks, was, now, ex);
    assert AddrOf(im, i, 0) !in Since(was, now);
    assert Contents(im', i)[0] == x by {
      ContentsLength(im, i);
    }
  }

  // ----- Writing in chunks -----

  /** How many of `n` bytes are in chunks that end within the largest file. */
  function Fit(off: nat, n: int): (lim: nat)
    ensures lim <= Max(0, n)
  {
    if n <= 0 then 0
    else if off + n <= MAXFILE * BSIZE then n
    else if off <= MAXFILE * BSIZE then (MAXFILE * BSIZE - off) / CHUNK * CHUNK
    else 0
  }

  /** What `filewrite` does from `off` when its source ends after `k` of `n` bytes. It stops before the first chunk
      that does not fit in a file, at the first block that cannot be had, or in the block in which the copy fails;
      of the last it reports nothing, unless that is where a chunk starts. */
  ghost predicate FileStops(sb: Super, im: Image, i: nat, off: nat, k: nat, n: int, r: nat, put: nat, full: bool) {
    var lim, free := Fit(off, n), Free(sb, im.blocks);
    && (full <==> free < Needs(im, i, BlockOf(off), EndBlock(off, Min(k, lim), lim)))
    && (full ==> put == r < lim && r <= k && StopsAt(im, i, off, r, free))
    && (!full ==> put == Min(k, lim) && r == if lim <= k then lim else Reported(off, k))
  }

  /** Bytes are put down and not reported exactly when there are blocks enough, the chunk fits, and the source ends
      inside a block and inside a chunk. */
  lemma FileUnreportedExactly(sb: Super, im: Image, i: nat, off: nat, k: nat, n: int, r: nat, put: nat, full: bool)
    requires FileStops(sb, im, i, off, k, n, r, put, full)
    ensures put != r <==>
              Needs(im, i, BlockOf(off), EndBlock(off, Min(k, Fit(off, n)), Fit(off, n))) <= Free(sb, im.blocks)
                          && k < Fit(off, n) && k % CHUNK != 0 && (off + k) % BSIZE != 0
  {
    hide Needs, Free, EndBlock, Fit, StopsAt, Reported;
  }

  /** Where the blocks of `done` bytes end, and the next ones begin. */
  lemma NextBlock(off: nat, done: nat)
    ensures var e, lo2 := EndBlock(off, done, done), BlockOf(off + done);
            BlockOf(off) <= lo2 <= e <= lo2 + 1 && (lo2 < e ==> Mis(off + done))
                && (off + done <= MAXFILE * BSIZE ==> e <= MAXFILE)
  {
    if done > 0 {
      assert off + done == (off + done - 1) + 1;
    }
  }

  /** The next chunk fits exactly as long as there is more of what fits. */
  lemma NextFits(off: nat, done: nat, n: int)
    requires InChunks(done, n) && done < n && done <= Fit(off, n) && off <= MAXFILE * BSIZE
    ensures var n1 := Min(n - done, CHUNK);
            (off + done + n1 <= MAXFILE * BSIZE <==> done < Fit(off, n))
                && (done < Fit(off, n) ==> done + n1 <= Fit(off, n))
  {
    assert done == done / CHUNK * CHUNK;
    if off + n > MAXFILE * BSIZE {
      ChunksIn(MAXFILE * BSIZE - off, done);
    }
  }

  lemma ChunksIn(room: nat, done: nat)
    requires done % CHUNK == 0 && done <= room / CHUNK * CHUNK
    ensures done + CHUNK <= room <==> done < room / CHUNK * CHUNK
    ensures done < room / CHUNK * CHUNK ==> done + CHUNK <= room / CHUNK * CHUNK
  {
    var q, d := room / CHUNK, done / CHUNK;
    assert done == d * CHUNK && room == q * CHUNK + room % CHUNK;
    assert d * CHUNK <= q * CHUNK;
    assert d <= q;
    if d < q {
      assert (d + 1) * CHUNK <= q * CHUNK;
    }
  }

  /** Everything that fits was written. */
  lemma FileDone(sb: Super, im: Image, im': Image, i: nat, off: nat, k: nat, n: int, done: nat, was: seq<nat>,
                 now: seq<nat>)
    requires Reached(sb, im, im', i, BlockOf(off), EndBlock(off, done, done), was, now) && done == Fit(off, n) <= k
    ensures FileStops(sb, im, i, off, k, n, done, done, false)
  {
    hide Free, Needs, EndBlock, BlockOf, Fit;
  }

  /** A chunk was written in full. */
  lemma ChunkNext(sb: Super, im: Image, mid: Image, im': Image, i: nat, off: nat, done: nat, n1: nat,
                  was: seq<nat>, now: seq<nat>, now': seq<nat>)
    requires Inv(sb, mid, {}) && i in mid.inodes && off + done <= mid.inodes[i].size && 0 < n1
    requires Reached(sb, im, mid, i, BlockOf(off), EndBlock(off, done, done), was, now)
    requires Reached(sb, mid, im', i, BlockOf(off + done), EndBlock(off + done, n1, n1), now, now')
    ensures Reached(sb, im, im', i, BlockOf(off), EndBlock(off, done + n1, done + n1), was, now')
  {
    hide Reached, Owned, Mapped, BitsExact, Addr;
    NextBlock(off, done);
    if Mis(off + done) {
      InsideMapped(sb, mid, i, off + done);
    }
    assert EndBlock(off + done, n1, n1) == EndBlock(off, done + n1, done + n1);
    ReachedThen(sb, im, mid, im', i, BlockOf(off), EndBlock(off, done, done), BlockOf(off + done),
                EndBlock(off + done, n1, n1), was, now, now');
  }

  /** What the blocks from `off + done` on need, in terms of the disk the write started from. */
  lemma ChunkNeeds(sb: Super, im: Image, mid: Image, i: nat, off: nat, done: nat, b: nat, was: seq<nat>, now: seq<nat>)
    requires Inv(sb, mid, {}) && i in mid.inodes && off + done <= mid.inodes[i].size
             && BlockOf(off + done) < b <= MAXFILE
    requires Reached(sb, im, mid, i, BlockOf(off), EndBlock(off, done, done), was, now)
    ensures Needs(mid, i, BlockOf(off + done), b) <= Free(sb, mid.blocks) <==>
              Needs(im, i, BlockOf(off), b) <= Free(sb, im.blocks)
  {
    hide Owned, Mapped, BitsExact, Addr, Needs, Free, BlockOf, EndBlock;
    NextBlock(off, done);
    if Mis(off + done) {
      InsideMapped(sb, mid, i, off + done);
    }
    NeedsThrough(sb, im, mid, i, BlockOf(off), EndBlock(off, done, done), BlockOf(off + done), b, was, now);
  }

  /** A block that is there needs nothing. */
  lemma MappedNeedsNothing(sb: Super, im: Image, i: nat, o: nat)
    requires Inv(sb, im, {}) && i in im.inodes && o <= im.inodes[i].size && Mis(o)
    ensures Needs(im, i, BlockOf(o), BlockOf(o) + 1) == 0
  {
    hide Owned, Mapped, BitsExact;
    InsideMapped(sb, im, i, o);
    assert Holes(im, i, BlockOf(o), BlockOf(o)) == 0;
  }

  /** A chunk stopped for want of a block. */
  lemma ChunkStopsAt(sb: Super, im: Image, mid: Image, i: nat, off: nat, done: nat, r: nat, was: seq<nat>,
                     now: seq<nat>)
    requires Inv(sb, mid, {}) && i in mid.inodes && off + done <= mid.inodes[i].size && off + done + r < MAXFILE * BSIZE
    requires Reached(sb, im, mid, i, BlockOf(off), EndBlock(off, done, done), was, now)
    requires StopsAt(mid, i, off + done, r, Free(sb, mid.blocks))
    ensures StopsAt(im, i, off, done + r, Free(sb, im.blocks))
  {
    hide Owned, Mapped, BitsExact, Addr, Needs, Free;
    var b := BlockOf(off + done + r);
    NextBlock(off, done);
    ChunkNeeds(sb, im, mid, i, off, done, b + 1, was, now);
    if b == BlockOf(off + done) {
      if Mis(off + done) {
        MappedNeedsNothing(sb, mid, i, off + done);
        assert false;
      }
    } else {
      ChunkNeeds(sb, im, mid, i, off, done, b, was, now);
    }
  }

  /** The chunk that stopped was the last. */
  lemma ChunkStops(sb: Super, im: Image, mid: Image, i: nat, off: nat, k: nat, n: int, done: nat, r: nat, p: nat,
                   full: bool, was: seq<nat>, now: seq<nat>)
    requires Inv(sb, mid, {}) && i in mid.inodes && off + done <= mid.inodes[i].size
    requires InChunks(done, n) && done < n && done <= k <= n && done < Fit(off, n) && off <= MAXFILE * BSIZE
    requires Reached(sb, im, mid, i, BlockOf(off), EndBlock(off, done, done), was, now)
    requires var n1 := Min(n - done, CHUNK);
             Stops(sb, mid, i, off + done, Min(k - done, n1), n1, r, p, full) && r != n1
    ensures FileStops(sb, im, i, off, k, n, done + r, done + p, full)
  {
    hide Owned, Mapped, BitsExact, Addr, Needs, Free, Reached, StopsAt, Whole, Reported, Fit;
    NextFits(off, done, n);
    ChunkStep(off, done, n, k);
    var n1, lim := Min(n - done, CHUNK), Fit(off, n);
    var kc := Min(k - done, n1);
    var hi2, hi := EndBlock(off + done, kc, n1), EndBlock(off, Min(k, lim), lim);
    assert off + done + Min(kc, n1 - 1) <= off + Min(Min(k, lim), lim - 1);
    assert BlockOf(off + done) < hi2 <= hi;
    ChunkNeeds(sb, im, mid, i, off, done, hi2, was, now);
    NeedsGrow(im, i, BlockOf(off), hi2, hi);
    if full {
      ChunkStopsAt(sb, im, mid, i, off, done, r, was, now);
    }
  }

  /** Each transaction logged every block it changed, except that the last may have left `torn` out. */
  ghost predicate TxsLog(steps: seq<seq<Block>>, txs: seq<seq<nat>>, torn: set<nat>) {
    && |steps| == |txs| + 1
    && (forall t :: 0 <= t < |txs| ==> Logged(steps[t], steps[t + 1], [], txs[t], if t == |txs| - 1 then torn else {}))
    && (txs != [] ==> forall b :: b in torn ==> b !in txs[|txs| - 1])
  }

  lemma TxsNone(bl: seq<Block>)
    ensures TxsLog([bl], [], {})
  {
  }

  lemma TxsNext(steps: seq<seq<Block>>, txs: seq<seq<nat>>, tx: seq<nat>, bl: seq<Block>, torn: set<nat>)
    requires TxsLog(steps, txs, {}) && Logged(steps[|txs|], bl, [], tx, torn) && forall b :: b in torn ==> b !in tx
    ensures TxsLog(steps + [bl], txs + [tx], torn)
  {
    hide Logged;
    var steps', txs' := steps + [bl], txs + [tx];
    forall t | 0 <= t < |txs'|
      ensures Logged(steps'[t], steps'[t + 1], [], txs'[t], if t == |txs'| - 1 then torn else {})
    {
      if t < |txs| {
        assert Logged(steps[t], steps[t + 1], [], txs[t], {});
      }
    }
  }

  lemma TornOf(im: Image, im': Image, i: nat, off: nat, k: nat, torn: bool, was: seq<nat>, tx: seq<nat>)
    requires WriteLogs(im, im', i, off, k, torn, was, was + tx)
    ensures var ex := if torn then BlockAt(im, i, BlockOf(off + k)) else {};
            Logged(im.blocks, im'.blocks, [], tx, ex) && (forall b :: b in ex ==> b !in tx) && |ex| <= 1
  {
    hide Logged, BlockOf;
    var ex := if torn then BlockAt(im, i, BlockOf(off + k)) else {};
    LoggedTx(im.blocks, im'.blocks, was, tx, ex);
    CardSub(ex, {AddrOf(im, i, BlockOf(off + k))});
  }

  lemma FullChunk(sb: Super, im: Image, i: nat, off: nat, k: nat, n: nat, p: nat, full: bool)
    requires k <= n && Stops(sb, im, i, off, k, n, n, p, full)
    ensures !full && k == n == p
  {
    hide Free, Needs, EndBlock, StopsAt;
  }

  lemma FileReached(sb: Super, im: Image, i: nat, off: nat, was: seq<nat>)
    requires Inv(sb, im, {}) && i in im.inodes && off <= im.inodes[i].size
    ensures Reached(sb, im, im, i, BlockOf(off), EndBlock(off, 0, 0), was, was)
  {
    hide Owned, Mapped, BitsExact, Reached;
    FirstBlock(off);
    ReachedNone(sb, im, i, BlockOf(off), was);
  }

  lemma FileAll(sb: Super, im: Image, im': Image, i: nat, off: nat, k: nat, n: int, done: nat, was: seq<nat>,
                now: seq<nat>)
    requires Reached(sb, im, im', i, BlockOf(off), EndBlock(off, done, done), was, now)
    requires done == Max(0, n) == k && done <= Fit(off, n)
    ensures FileStops(sb, im, i, off, k, n, done, done, false)
  {
    hide Reached, FileStops;
    FileDone(sb, im, im', i, off, k, n, done, was, now);
  }

  class Disk {
    const sb: Super
    var blocks: seq<Block>
    var inodes: map<nat, Inode>  // in-memory copies
    var dinodes: map<nat, Inode> // as last written by `iupdate`
    ghost var own: map<nat, (nat, nat)>
    ghost var calls: seq<nat>

    ghost function Img(): Image
      reads this
    {
      Image(blocks, inodes, own)
    }

    ghost predicate Valid()
      reads this
    {
      Inv(sb, Img(), {}) && forall i :: i in inodes ==> IBlock(i) < sb.bmapstart
    }

    function IBlock(i: nat): nat {
      i / IPB + sb.inodestart
    }

    /** Mounts a consistent disk. */
    constructor (sb: Super, blocks: seq<Block>, inodes: map<nat, Inode>, ghost own: map<nat, (nat, nat)>)
      requires Inv(sb, Image(blocks, inodes, own), {})
      requires forall i :: i in inodes ==> i / IPB + sb.inodestart < sb.bmapstart
      ensures Valid() && Img() == Image(blocks, inodes, own) && dinodes == inodes && calls == []
    {
      this.sb, this.blocks, this.inodes, this.dinodes := sb, blocks, inodes, inodes;
      this.own, this.calls := own, [];
    }

    // ----- Blocks -----

    /** `balloc`: the first free block, marked and zeroed, or 0 when there is none. */
    method Balloc(ghost spare: set<nat>) returns (b: nat)
      requires Inv(sb, Img(), spare)
      modifies `blocks, `calls
      ensures b == 0 ==>
                Img() == old(Img()) && calls == old(calls) && forall c :: 0 <= c < sb.size ==> Used(sb, blocks, c)
      ensures b != 0 ==>
                && b < sb.size && !Used(sb, old(blocks), b) && (forall c :: 0 <= c < b ==> Used(sb, old(blocks), c))
                && Img() == Taken(sb, old(Img()), b) && calls == old(calls) + [BBlock(sb, b), b]
    {
      hide Owned, Mapped, Bit, Marked;
      assert BitExact(sb, blocks, own.Keys + spare, 0);
      var base := 0;
      while base < sb.size
        invariant base % BPB == 0 && blocks == old(blocks) && calls == old(calls)
        invariant forall c :: 0 <= c < base && c < sb.size ==> Used(sb, blocks, c)
      {
        BitmapFits(sb, Img(), base);
        var bb := BBlock(sb, base);
        var bp := blocks[bb];
        var bi := 0;
        while bi < BPB && base + bi < sb.size
          invariant 0 <= bi <= BPB && blocks == old(blocks) && calls == old(calls)
          invariant forall c :: 0 <= c < base + bi && c < sb.size ==> Used(sb, blocks, c)
        {
          SameBitmapBlock(base, bi);
          if !Bit(bp, bi) {
            bp := Marked(bp, bi);
            blocks, calls := blocks[bb := bp], calls + [bb];
            b := base + bi;
            blocks, calls := blocks[b := Zero()], calls + [b];
            assert !Used(sb, old(blocks), b);
            return;
          }
          bi := bi + 1;
        }
        SameBitmapBlock(base, 0);
        base := base + BPB;
      }
      b := 0;
    }

    /** `bfree`: clears the block's bit. Its panic is the precondition. */
    method Bfree(b: nat, ghost held: set<nat>)
      requires WellFormed(sb, Img()) && BitsExact(sb, blocks, held) && sb.nmeta <= b < sb.size
      requires Used(sb, blocks, b)
      modifies `blocks, `calls
      ensures |blocks| == sb.size && BitsExact(sb, blocks, held - {b})
      ensures forall c :: sb.nmeta <= c < sb.size ==> blocks[c] == old(blocks[c])
      ensures calls == old(calls) + [BBlock(sb, b)] && Logged(old(blocks), blocks, old(calls), calls, {})
    {
      hide Logged;
      BitmapFits(sb, Img(), b);
      BitFreed(sb, Img(), held, b);
      var bb := BBlock(sb, b);
      LoggedOne(blocks, bb, Unmarked(blocks[bb], b % BPB), calls);
      blocks, calls := blocks[bb := Unmarked(blocks[bb], b % BPB)], calls + [bb];
    }

    /** `iupdate`. */
    method Iupdate(i: nat)
      requires i in inodes
      modifies `dinodes, `calls
      ensures dinodes == old(dinodes)[i := inodes[i]] && calls == old(calls) + [IBlock(i)]
    {
      dinodes, calls := dinodes[i := inodes[i]], calls + [IBlock(i)];
    }

    // ----- Block mapping -----

    /** Fills an empty direct slot, or the empty indirect pointer. */
    method AllocDirect(i: nat, k: nat) returns (addr: nat)
      requires Valid() && i in inodes && k <= INDIRECT && inodes[i].addrs[k] == 0
      modifies `blocks, `inodes, `own, `calls
      ensures Valid() && i in inodes
      ensures addr == 0 ==>
                Img() == old(Img()) && calls == old(calls) && forall c :: 0 <= c < sb.size ==> Used(sb, blocks, c)
      ensures addr != 0 ==> Gave(sb, old(Img()), Img(), i, k, addr) && calls == old(calls) + [BBlock(sb, addr), addr]
      ensures Logged(old(blocks), blocks, old(calls), calls, {})
      ensures inodes[i].addrs[INDIRECT] == if k == INDIRECT then addr else old(inodes[i].addrs[INDIRECT])
    {
      hide Owned, Mapped, BitsExact, Used, Preserved, Slot, Logged;
      LoggedNone(blocks, calls);
      addr := Balloc({});
      if addr != 0 {
        GaveDirect(sb, old(Img()), i, k, addr);
        BitmapFits(sb, old(Img()), addr);
        TakenLogged(sb, old(Img()), addr, old(calls));
        inodes := inodes[i := inodes[i].(addrs := inodes[i].addrs[k := addr])];
        own := own[addr := (i, k)];
        assert Img() == LinkedDirect(Taken(sb, old(Img()), addr), i, k, addr);
        assert inodes.Keys == old(inodes.Keys);
      }
    }

    /** Fills an empty slot in the indirect block. */
    method AllocIndirect(i: nat, w: nat) returns (addr: nat)
      requires Valid() && i in inodes && w < NINDIRECT && inodes[i].addrs[INDIRECT] != 0
      requires Slot(blocks, inodes[i], INDIRECT + 1 + w) == 0
      modifies `blocks, `own, `calls
      ensures Valid() && i in inodes
      ensures addr == 0 ==>
                Img() == old(Img()) && calls == old(calls) && forall c :: 0 <= c < sb.size ==> Used(sb, blocks, c)
      ensures addr != 0 ==>
                && Gave(sb, old(Img()), Img(), i, INDIRECT + 1 + w, addr)
                && calls == old(calls) + [BBlock(sb, addr), addr, inodes[i].addrs[INDIRECT]]
      ensures Logged(old(blocks), blocks, old(calls), calls, {})
    {
      hide Owned, Mapped, BitsExact, Used, Preserved, Slot, SetWord, Logged;
      LoggedNone(blocks, calls);
      addr := Balloc({});
      if addr != 0 {
        GaveIndirect(sb, old(Img()), i, w, addr);
        BitmapFits(sb, old(Img()), addr);
        TakenLogged(sb, old(Img()), addr, old(calls));
        var a := inodes[i].addrs[INDIRECT];
        LoggedOne(blocks, a, SetWord(blocks[a], w, addr), calls);
        LoggedThen(old(blocks), blocks, blocks[a := SetWord(blocks[a], w, addr)], old(calls), calls, calls + [a], {});
        blocks, calls := blocks[a := SetWord(blocks[a], w, addr)], calls + [a];
        own := own[addr := (i, INDIRECT + 1 + w)];
        assert Img() == LinkedIndirect(Taken(sb, old(Img()), addr), i, w, addr);
      }
    }

    /** The first half of `bmap`: a direct block. */
    method BmapDirect(i: nat, bn: nat) returns (addr: nat, ghost maps: set<nat>)
      requires Valid() && i in inodes && bn < NDIRECT
      modifies `blocks, `inodes, `own, `calls
      ensures Valid() && MapsTo(sb, old(Img()), Img(), i, bn, addr) && i in inodes
      ensures addr == 0 ==> forall c :: 0 <= c < sb.size ==> Used(sb, blocks, c)
      ensures inodes[i].addrs[INDIRECT] == old(inodes[i].addrs[INDIRECT])
      ensures Logs(old(calls), calls, Touched(maps, addr, inodes[i].addrs[INDIRECT]))
      ensures old(Addr(blocks, inodes[i], bn)) != 0 ==> calls == old(calls)
      ensures |maps| <= (if addr != 0 && old(Addr(blocks, inodes[i], bn)) == 0 then 1 else 0)
      ensures Fills(sb, old(Img()), Img(), i, bn, addr) && MapLogs(old(Img()), Img(), i, bn, addr, old(calls), calls)
    {
      hide Owned, Mapped, BitsExact, Used, Gave, MapsTo, BBlock, BitExact, Fills, Logged, Spares;
      maps := {};
      ghost var im, was := Img(), calls;
      addr := inodes[i].addrs[bn];
      MapsFound(sb, im, i, bn, addr);
      MapLogsNothing(im, i, bn, addr, was);
      if addr != 0 {
        FillsFound(sb, im, i, bn);
      } else {
        addr := AllocDirect(i, bn);
        if addr != 0 {
          maps := {BBlock(sb, addr)};
          MapsGiven(sb, im, Img(), i, bn, addr);
          FillsGiven(sb, im, Img(), i, bn, addr);
          assert calls == was + [BBlock(sb, addr), addr] + [];
          MapLogsGiven(sb, im, Img(), i, DataSlot(bn), bn, addr, was, calls, []);
        } else {
          FillsNone(sb, im, i, bn);
        }
      }
    }

    /** The second half of `bmap`: the indirect block is there. */
    method BmapIndirect(i: nat, bn: nat) returns (addr: nat, ghost maps: set<nat>)
      requires Valid() && i in inodes && NDIRECT <= bn < MAXFILE && inodes[i].addrs[INDIRECT] != 0
      modifies `blocks, `own, `calls
      ensures Valid() && MapsTo(sb, old(Img()), Img(), i, bn, addr)
      ensures addr == 0 ==> forall c :: 0 <= c < sb.size ==> Used(sb, blocks, c)
      ensures Logs(old(calls), calls, Touched(maps, addr, inodes[i].addrs[INDIRECT]))
      ensures old(Addr(blocks, inodes[i], bn)) != 0 ==> calls == old(calls)
      ensures |maps| <= (if addr != 0 && old(Addr(blocks, inodes[i], bn)) == 0 then 1 else 0)
      ensures Fills(sb, old(Img()), Img(), i, bn, addr) && MapLogs(old(Img()), Img(), i, bn, addr, old(calls), calls)
    {
      hide Owned, Mapped, BitsExact, Used, Gave, MapsTo, BBlock, BitExact, Fills, Logged, Spares;
      maps := {};
      ghost var im, was := Img(), calls;
      var a := inodes[i].addrs[INDIRECT];
      IndirectOwned(sb, im, i);
      addr := Word(blocks[a], bn - NDIRECT);
      MapsFound(sb, im, i, bn, addr);
      MapLogsNothing(im, i, bn, addr, was);
      if addr != 0 {
        FillsFound(sb, im, i, bn);
      } else {
        addr := AllocIndirect(i, bn - NDIRECT);
        if addr != 0 {
          maps := {BBlock(sb, addr)};
          MapsGiven(sb, im, Img(), i, bn, addr);
          FillsGiven(sb, im, Img(), i, bn, addr);
          assert calls == was + [BBlock(sb, addr), addr] + [a];
          MapLogsGiven(sb, im, Img(), i, DataSlot(bn), bn, addr, was, calls, [a]);
        } else {
          FillsNone(sb, im, i, bn);
        }
      }
    }

    /** `bmap`. `maps` are the bitmap blocks it logged, one for each block it allocated. */
    method Bmap(i: nat, bn: nat) returns (addr: nat, ghost maps: set<nat>)
      requires Valid() && i in inodes && bn < MAXFILE
      modifies `blocks, `inodes, `own, `calls
      ensures Valid() && MapsTo(sb, old(Img()), Img(), i, bn, addr)
      ensures addr == 0 ==> forall c :: 0 <= c < sb.size ==> Used(sb, blocks, c)
      ensures i in inodes && |inodes[i].addrs| == NDIRECT + 1
      ensures Logs(old(calls), calls, Touched(maps, addr, inodes[i].addrs[INDIRECT]))
      ensures old(Addr(blocks, inodes[i], bn)) != 0 ==> calls == old(calls)
      ensures old(inodes[i].addrs[INDIRECT]) != 0 ==> inodes[i].addrs[INDIRECT] == old(inodes[i].addrs[INDIRECT])
      ensures |maps| <= (if addr != 0 && old(Addr(blocks, inodes[i], bn)) == 0 then 1 else 0)
                        + (if old(inodes[i].addrs[INDIRECT]) == 0 != inodes[i].addrs[INDIRECT] then 1 else 0)
      ensures Fills(sb, old(Img()), Img(), i, bn, addr) && MapLogs(old(Img()), Img(), i, bn, addr, old(calls), calls)
    {
      hide Owned, Mapped, BitsExact, Used, Gave, MapsTo, BBlock, BitExact, Fills, MapLogs;
      maps := {};
      if bn < NDIRECT {
        addr, maps := BmapDirect(i, bn);
      } else if inodes[i].addrs[INDIRECT] != 0 {
        addr, maps := BmapIndirect(i, bn);
      } else {
        MapsFound(sb, Img(), i, bn, 0);
        MapLogsNothing(Img(), i, bn, 0, calls);
        ghost var im, was := Img(), calls;
        var a := AllocDirect(i, INDIRECT);
        if a == 0 {
          FillsNone(sb, im, i, bn);
          return 0, {};
        }
        ghost var mid, now := Img(), calls;
        assert now == was + [BBlock(sb, a), a] + [];
        MapLogsGiven(sb, im, mid, i, INDIRECT, bn, a, was, now, []);
        ghost var more;
        addr, more := BmapIndirect(i, bn);
        maps := {BBlock(sb, a)} + more;
        MapsThrough(sb, im, mid, Img(), i, bn, a, addr);
        FillsThrough(sb, im, mid, Img(), i, bn, a, addr);
        MapLogsBoth(sb, im, mid, Img(), i, bn, a, addr, was, now, calls);
      }
    }

    // ----- Reading and writing -----

    /** `bmap` of a block that is there changes nothing. */
    method BmapFound(i: nat, bn: nat) returns (addr: nat)
      requires Valid() && i in inodes && bn < MAXFILE && Addr(blocks, inodes[i], bn) != 0
      modifies `blocks, `inodes, `own, `calls
      ensures Valid() && Img() == old(Img()) && calls == old(calls)
      ensures addr == old(Addr(blocks, inodes[i], bn)) && addr < |blocks|
    {
      hide Owned, Mapped, BitsExact, BitExact, MapsTo, Addr, Used, Logs;
      ghost var maps;
      addr, maps := Bmap(i, bn);
      MapsFacts(sb, old(Img()), Img(), i, bn, addr);
    }

    /** One round of the loop of `readi`: the next `m` bytes, of which `|piece|` fit. */
    method ReadRound(i: nat, off: nat, len: nat, tot: nat, room: nat) returns (m: nat, piece: seq<Byte>)
      requires Valid() && i in inodes && off + len <= inodes[i].size && tot < len && tot <= room
      modifies `blocks, `inodes, `own, `calls
      ensures Valid() && Img() == old(Img()) && calls == old(calls)
      ensures 0 < m <= len - tot && |piece| == Min(m, room - tot)
      ensures Range(Img(), i, off, len)[..tot] + piece == Range(Img(), i, off, len)[..tot + |piece|]
    {
      hide Owned, Mapped, BitsExact, BitExact, MapsTo, Addr, Used, Logs, BlockOf, Within, Left, Range;
      var o := off + tot;
      m := Min(len - tot, Left(o));
      var copied := Min(m, room - tot);
      ReadStep(sb, Img(), i, off, len, tot, m, copied);
      var addr := BmapFound(i, BlockOf(o));
      piece := blocks[addr][Within(o)..Within(o) + copied];
    }

    /** `readi`: `room` is how much of the destination can be stored to. The disk is as before: every block it
        maps is there, so it never allocates. */
    method Readi(i: nat, off: nat, n: nat, room: nat) returns (r: int, data: seq<Byte>)
      requires Valid() && i in inodes && off < 0x1_0000_0000 && n < 0x1_0000_0000
      modifies `blocks, `inodes, `own, `calls
      ensures Valid() && Img() == old(Img()) && calls == old(calls)
      ensures off > inodes[i].size || off + n >= 0x1_0000_0000 ==> r == 0 && data == []
      ensures off <= inodes[i].size && off + n < 0x1_0000_0000 ==>
                var want := Range(Img(), i, off, Min(n, inodes[i].size - off));
                if |want| <= room then r == |want| && data == want else r == -1 && data == want[..room]
    {
      hide Owned, Mapped, BitsExact, Range, Wraps;
      data := [];
      var size := inodes[i].size;
      if off > size || Wraps(off, n) {
        return 0, [];
      }
      var len := if off + n > size then size - off else n;
      ghost var im := Img();
      ghost var want := Range(im, i, off, len);
      var tot := 0;
      while tot < len
        invariant 0 <= tot <= len && Valid() && Img() == im && calls == old(calls)
        invariant tot <= room && data == want[..tot]
      {
        var m, piece := ReadRound(i, off, len, tot, room);
        data := data + piece;
        if |piece| < m {
          return -1, data;
        }
        tot := tot + m;
      }
      r := tot;
    }

    /** The `bmap` in a round of `writei`. */
    method MapRound(i: nat, bn: nat, off: nat, src: seq<Byte>, tot: nat, ghost im: Image, ghost was: seq<nat>,
                    ghost lo: nat)
      returns (addr: nat, ghost maps: set<nat>)
      requires Valid() && i in inodes && bn < MAXFILE && tot <= |src|
      requires Written(im, Img(), i, off, src, tot) && OthersKept(im, Img(), i)
      requires Rounds(sb, im, Img(), i, lo, bn, was, calls)
      modifies `blocks, `inodes, `own, `calls
      ensures Valid() && i in inodes && |inodes[i].addrs| == NDIRECT + 1 && inodes[i].size == old(inodes[i].size)
      ensures Written(im, Img(), i, off, src, tot) && OthersKept(im, Img(), i)
      ensures addr == 0 ==> forall c :: 0 <= c < sb.size ==> Used(sb, blocks, c)
      ensures addr != 0 ==> sb.nmeta <= addr < sb.size == |blocks| && addr == Addr(blocks, inodes[i], bn)
      ensures Logs(old(calls), calls, Touched(maps, addr, inodes[i].addrs[INDIRECT]))
      ensures old(inodes[i].addrs[INDIRECT]) != 0 ==> inodes[i].addrs[INDIRECT] == old(inodes[i].addrs[INDIRECT])
      ensures |maps| <= (if old(Addr(blocks, inodes[i], bn)) == 0 then 1 else 0)
                        + (if old(inodes[i].addrs[INDIRECT]) == 0 != inodes[i].addrs[INDIRECT] then 1 else 0)
      ensures Needs(im, i, lo, bn) <= Free(sb, im.blocks)
              && (addr != 0 <==> Needs(im, i, lo, bn + 1) <= Free(sb, im.blocks))
      ensures addr != 0 ==> Rounds(sb, im, Img(), i, lo, bn + 1, was, calls)
      ensures Logged(im.blocks, blocks, was, calls, {})
      ensures addr != 0 ==> BlockAt(im, i, bn) == if addr in Since(was, calls) then {} else {addr}
    {
      hide Owned, Mapped, BitsExact, BitExact, Addr, Used, Written, OthersKept, MapsTo, Rounds, Fills, MapLogs, Logged,
           Needs, Free, BlockAt, Since;
      ghost var im1, now := Img(), calls;
      addr, maps := Bmap(i, bn);
      MapsSize(sb, im1, Img(), i, bn, addr);
      MapsFacts(sb, im1, Img(), i, bn, addr);
      WrittenMapped(sb, im, im1, Img(), i, off, src, tot, bn, addr);
      RoundMapped(sb, im, im1, Img(), i, lo, bn, addr, was, now, calls);
    }

    /** One round of the loop of `writei`. The copy faults when it reaches the end of `src`, and then the
        block keeps what was copied. */
    method WriteRound(i: nat, off: nat, src: seq<Byte>, tot: nat, n: nat, ghost im: Image, ghost was: seq<nat>,
                      ghost lo: nat)
      returns (addr: nat, m: nat, ghost put: nat, ghost maps: set<nat>)
      requires Valid() && i in inodes && tot <= |src| <= n && tot < n && off + n <= MAXFILE * BSIZE
      requires Written(im, Img(), i, off, src, tot) && OthersKept(im, Img(), i)
      requires Rounds(sb, im, Img(), i, lo, BlockOf(off + tot), was, calls)
      modifies `blocks, `inodes, `own, `calls
      ensures Valid() && i in inodes && |inodes[i].addrs| == NDIRECT + 1
      ensures tot + m <= put <= |src| && Written(im, Img(), i, off, src, put) && OthersKept(im, Img(), i)
      ensures inodes[i].size == old(inodes[i].size)
      ensures addr == 0 ==> m == 0 && put == tot && forall c :: 0 <= c < sb.size ==> Used(sb, blocks, c)
      ensures addr != 0 ==>
                if m == 0 then put == |src| < n && |src| - tot < Min(n - tot, Left(off + tot))
                else put == tot + m && m == Min(n - tot, Left(off + tot))
      ensures Logs(old(calls), calls, Touched(maps, addr, inodes[i].addrs[INDIRECT]))
      ensures old(inodes[i].addrs[INDIRECT]) != 0 ==> inodes[i].addrs[INDIRECT] == old(inodes[i].addrs[INDIRECT])
      ensures |maps| <= (if old(Addr(blocks, inodes[i], BlockOf(off + tot))) == 0 then 1 else 0)
                        + (if old(inodes[i].addrs[INDIRECT]) == 0 != inodes[i].addrs[INDIRECT] then 1 else 0)
      ensures Needs(im, i, lo, BlockOf(off + tot)) <= Free(sb, im.blocks)
      ensures addr != 0 <==> Needs(im, i, lo, BlockOf(off + tot) + 1) <= Free(sb, im.blocks)
      ensures addr != 0 ==> Reached(sb, im, Img(), i, lo, BlockOf(off + tot) + 1, was, calls)
      ensures var ex := if m == 0 && put > tot then BlockAt(im, i, BlockOf(off + tot)) else {};
              Logged(im.blocks, blocks, was, calls, ex) && forall b :: b in ex ==> b !in Since(was, calls)
    {
      hide Owned, Mapped, BitsExact, BitExact, Addr, Used, Spliced, Written, OthersKept, Rounds, Reached, Logged,
           Needs, Free, BlockAt, Since, BlockOf, Left;
      var o := off + tot;
      var bn := BlockOf(o);
      addr, maps := MapRound(i, bn, off, src, tot, im, was, lo);
      m := 0;
      put := tot;
      if addr != 0 {
        m, put := CopyRound(i, off, src, tot, n, addr, im, was, lo);
      }
    }

    /** The copy in a round of `writei`. */
    method CopyRound(i: nat, off: nat, src: seq<Byte>, tot: nat, n: nat, addr: nat, ghost im: Image,
                     ghost was: seq<nat>, ghost lo: nat)
      returns (m: nat, ghost put: nat)
      requires Valid() && i in inodes && tot <= |src| <= n && tot < n && off + n <= MAXFILE * BSIZE
      requires Written(im, Img(), i, off, src, tot) && OthersKept(im, Img(), i)
      requires addr == Addr(blocks, inodes[i], BlockOf(off + tot)) != 0
      requires Rounds(sb, im, Img(), i, lo, BlockOf(off + tot) + 1, was, calls)
      requires BlockAt(im, i, BlockOf(off + tot)) == if addr in Since(was, calls) then {} else {addr}
      modifies `blocks, `calls
      ensures Valid() && i in inodes
      ensures tot + m <= put <= |src| && Written(im, Img(), i, off, src, put) && OthersKept(im, Img(), i)
      ensures if m == 0 then put == |src| < n && |src| - tot < Min(n - tot, Left(off + tot)) && calls == old(calls)
              else put == tot + m && m == Min(n - tot, Left(off + tot)) && calls == old(calls) + [addr]
      ensures Reached(sb, im, Img(), i, lo, BlockOf(off + tot) + 1, was, calls)
      ensures var ex := if m == 0 && put > tot then BlockAt(im, i, BlockOf(off + tot)) else {};
              Logged(im.blocks, blocks, was, calls, ex) && forall b :: b in ex ==> b !in Since(was, calls)
    {
      hide Owned, Mapped, BitsExact, BitExact, Addr, Used, Spliced, Written, OthersKept, Reached, Logged,
           Needs, Free, BlockAt, Since;
      var o := off + tot;
      m := Min(n - tot, Left(o));
      ghost var mid := Img();
      put := Min(tot + m, |src|);
      WrittenMore(sb, im, mid, i, off, src, tot, put - tot);
      var block := Spliced(blocks[addr], o % BSIZE, src[tot..Min(tot + m, |src|)]);
      RoundWritten(sb, im, mid, i, lo, BlockOf(o), block, if tot + m > |src| then [] else [addr], was, calls);
      if tot + m > |src| {
        blocks := blocks[addr := block];
        assert calls + [] == calls;
        if put == tot {
          SplicedNothing(mid.blocks[addr], o % BSIZE, src[tot..put]);
          assert blocks == mid.blocks;
        }
        m := 0;
      } else {
        blocks, calls := blocks[addr := block], calls + [addr];
      }
      OthersKeptTransitive(im, mid, Img(), i);
    }

    /** The same round, with its entry in the tally. */
    method CountedRound(i: nat, off: nat, src: seq<Byte>, tot: nat, n: nat,
                        ghost im: Image, ghost was: seq<nat>, ghost ind0: nat, ghost y: Tally)
      returns (m: nat, ghost put: nat, ghost y': Tally, ghost full: bool)
      requires Valid() && i in inodes && tot <= |src| <= n && tot < n && off <= inodes[i].size
               && off + n <= MAXFILE * BSIZE
      requires Written(im, Img(), i, off, src, tot) && OthersKept(im, Img(), i)
      requires Account(off, n, was, calls, ind0, inodes[i].addrs[INDIRECT], y) && AtBoundary(off, n, tot, y)
      requires y.t == 0 ==> tot == 0
      requires Rounds(sb, im, Img(), i, BlockOf(off), BlockOf(off) + y.t, was, calls)
      modifies `blocks, `inodes, `own, `calls
      ensures Valid() && i in inodes && |inodes[i].addrs| == NDIRECT + 1 && inodes[i].size == old(inodes[i].size)
      ensures tot + m <= put <= |src| && Written(im, Img(), i, off, src, put) && OthersKept(im, Img(), i)
      ensures full ==> m == 0 && put == tot && forall c :: 0 <= c < sb.size ==> Used(sb, blocks, c)
      ensures Account(off, n, was, calls, ind0, inodes[i].addrs[INDIRECT], y') && 0 < y'.t
      ensures m != 0 ==> put == tot + m <= n && AtBoundary(off, n, tot + m, y')
      ensures m != 0 ==> Rounds(sb, im, Img(), i, BlockOf(off), BlockOf(off) + y'.t, was, calls)
      ensures m != 0 && tot + m == n && |src| == n ==> BlockOf(off) + y'.t == EndBlock(off, |src|, n)
      ensures m == 0 ==> Stops(sb, im, i, off, |src|, n, tot, put, full)
      ensures m == 0 ==> WriteLogs(im, Img(), i, off, |src|, put != tot, was, calls)
      ensures m == 0 && !full ==> Reached(sb, im, Img(), i, BlockOf(off), EndBlock(off, |src|, n), was, calls)
    {
      hide Owned, Mapped, BitsExact, Addr, Used, Account, AtBoundary, Written, OthersKept, Logs, Mis, BlockOf, Left,
           Whole, Rounds, Reached, Logged, Needs, Free, BlockAt, Since, EndBlock, Stops, WriteLogs;
      ghost var now, ind, there := calls, inodes[i].addrs[INDIRECT], Addr(blocks, inodes[i], BlockOf(off + tot)) != 0;
      if y.t == 0 && Mis(off) {
        InsideMapped(sb, Img(), i, off);
      }
      RoundBlock(off, n, tot, y);
      RoundEnd(off, n, tot, |src|);
      ghost var more;
      var addr;
      addr, m, put, more := WriteRound(i, off, src, tot, n, im, was, BlockOf(off));
      AccountStep(off, n, tot, m, was, now, calls, ind0, ind, inodes[i].addrs[INDIRECT], y, more, addr, there);
      y', full := Next(y, addr, more), addr == 0;
      if m == 0 {
        RoundStops(sb, im, Img(), i, off, |src|, n, tot, put, y, full, was, calls);
      } else {
        RoundsFrom(sb, im, Img(), i, BlockOf(off), BlockOf(off) + y'.t, was, calls);
      }
    }

    /** The loop of `writei`, with the blocks it logs. */
    method WriteLoop(i: nat, off: nat, src: seq<Byte>, n: nat)
      returns (tot: nat, ghost put: nat, ghost y: Tally, ghost full: bool)
      requires Valid() && i in inodes && |src| <= n && off <= inodes[i].size && off + n <= MAXFILE * BSIZE
      modifies `blocks, `inodes, `own, `calls
      ensures Valid() && i in inodes && |inodes[i].addrs| == NDIRECT + 1 && inodes[i].size == old(inodes[i].size)
      ensures tot <= put <= |src| && Written(old(Img()), Img(), i, off, src, put) && OthersKept(old(Img()), Img(), i)
      ensures Account(off, n, old(calls), calls, old(inodes[i].addrs[INDIRECT]), inodes[i].addrs[INDIRECT], y)
      ensures full ==> forall c :: 0 <= c < sb.size ==> Used(sb, blocks, c)
      ensures Stops(sb, old(Img()), i, off, |src|, n, tot, put, full)
      ensures WriteLogs(old(Img()), Img(), i, off, |src|, put != tot, old(calls), calls)
      ensures !full ==> Reached(sb, old(Img()), Img(), i, BlockOf(off), EndBlock(off, |src|, n), old(calls), calls)
    {
      hide Owned, Mapped, BitsExact, Addr, Used, Account, AtBoundary, Written, OthersKept, Logs, Mis, BlockOf, Left,
           Whole, Rounds, Reached, WriteLogs, Stops, EndBlock;
      ghost var im, ind0 := Img(), inodes[i].addrs[INDIRECT];
      tot, put, y, full := 0, 0, NOTHING, false;
      AccountStart(off, n, calls, ind0);
      WrittenNothing(im, i, off, src);
      Untouched(sb, im, i);
      FirstBlock(off);
      RoundStart(sb, im, i, BlockOf(off), calls);
      EndOfNothing(off, |src|, n);
      while tot < n
        invariant 0 <= tot <= n && put == tot <= |src| && (y.t == 0 ==> tot == 0) && !full
        invariant Valid() && i in inodes && |inodes[i].addrs| == NDIRECT + 1 && inodes[i].size == im.inodes[i].size
        invariant Written(im, Img(), i, off, src, tot) && OthersKept(im, Img(), i)
        invariant Account(off, n, old(calls), calls, ind0, inodes[i].addrs[INDIRECT], y) && AtBoundary(off, n, tot, y)
        invariant Rounds(sb, im, Img(), i, BlockOf(off), BlockOf(off) + y.t, old(calls), calls)
        invariant tot == n && |src| == n ==> BlockOf(off) + y.t == EndBlock(off, |src|, n)
      {
        var m;
        m, put, y, full := CountedRound(i, off, src, tot, n, im, old(calls), ind0, y);
        if m == 0 {
          return;
        }
        tot := tot + m;
      }
      WholeWrite(sb, im, Img(), i, off, n, y.t, old(calls), calls);
    }

    /** `writei`: `src` is the part of the source that can be read, `n` what was asked for. It reports `r` bytes;
        `put` bytes reached the file, and `full` says that it stopped for want of a block. The disk before the
        call decides all three. */
    method Writei(i: nat, off: nat, src: seq<Byte>, n: nat) returns (r: int, ghost put: nat, ghost full: bool)
      requires Valid() && i in inodes && off < 0x1_0000_0000 && n < 0x1_0000_0000 && |src| <= n
      modifies this
      ensures Valid() && OthersKept(old(Img()), Img(), i) && i in inodes && |inodes[i].addrs| == NDIRECT + 1
      ensures forall j :: j in old(inodes) && j != i ==> j in inodes && Contents(Img(), j) == old(Contents(Img(), j))
      ensures Rejected(old(inodes[i].size), off, n) ==>
                r == -1 && Img() == old(Img()) && calls == old(calls) && dinodes == old(dinodes)
      ensures !Rejected(old(inodes[i].size), off, n) ==>
                && 0 <= r <= put <= |src|
                && inodes[i].size == Max(old(inodes[i].size), off + r)
                && Contents(Img(), i) == Overlaid(old(Contents(Img(), i)), off, src[..put])[..inodes[i].size]
                && dinodes == old(dinodes)[i := inodes[i]]
                && (full ==> forall c :: 0 <= c < sb.size ==> Used(sb, blocks, c))
                && Stops(sb, old(Img()), i, off, |src|, n, r, put, full)
                && WriteLogs(old(Img()), Img(), i, off, |src|, put != r, old(calls), calls)
                && (!full ==> Reached(sb, old(Img()), Img(), i, BlockOf(off), EndBlock(off, |src|, n), old(calls),
                    calls))
                && old(calls) < calls && calls[|calls| - 1] == IBlock(i)
                && (n <= CHUNK ==> FitsBudget(calls[|old(calls)|..]))
    {
      hide Owned, Mapped, BitsExact, BitExact, Addr, Used, Contents, FitsBudget, Account, Written, OthersKept, Wraps,
           Whole, Stops, WriteLogs, Reached, EndBlock, BlockOf;
      ghost var im, was, ind0 := Img(), calls, inodes[i].addrs[INDIRECT];
      Untouched(sb, im, i);
      if off > inodes[i].size || Wraps(off, n) {
        return -1, 0, false;
      }
      if off + n > MAXFILE * BSIZE {
        return -1, 0, false;
      }
      ghost var y;
      var tot;
      tot, put, y, full := WriteLoop(i, off, src, n);
      ghost var end, now := Img(), calls;
      WrittenContents(sb, im, end, i, off, src, tot, put);
      if off + tot > inodes[i].size {
        inodes := inodes[i := inodes[i].(size := off + tot)];
      }
      ghost var size := Max(im.inodes[i].size, off + tot);
      assert inodes == Resized(end, i, size).inodes;
      assert Img() == Resized(end, i, size);
      OthersKeptTransitive(im, end, Img(), i);
      AccountFits(off, n, was, calls, ind0, inodes[i].addrs[INDIRECT], y, IBlock(i));
      OthersRead(sb, im, Img(), i);
      Closing(sb, im, end, i, off, |src|, n, tot, put, full, size, was, now, IBlock(i));
      Iupdate(i);
      r := tot;
    }

    /** Every file of at least two bytes has a write that leaves a block changed and unlogged: two bytes at its
        start, of which only the first can be read. */
    method TornWrite(i: nat, x: Byte) returns (ghost b: nat)
      requires Valid() && i in inodes && inodes[i].size >= 2 && Contents(Img(), i)[0] != x
      modifies this
      ensures b < |blocks| == |old(blocks)| && blocks[b] != old(blocks)[b]
      ensures old(calls) <= calls && b !in calls[|old(calls)|..]
    {
      hide Inv, OthersKept, Contents, FitsBudget, Reached, WriteLogs, Stops, Overlaid;
      ghost var im, was := Img(), calls;
      FirstByte(sb, im, i);
      var r;
      ghost var put, full;
      r, put, full := Writei(i, 0, [x], 2);
      TornStops(sb, im, i, r, put, full);
      assert [x][..1] == [x];
      b := AddrOf(im, i, 0);
      TornFirst(sb, im, Img(), i, x, was, calls);
    }

    // ----- Truncating -----

    /** Frees the block in slot `k` when its turn comes. It is allocated, so `bfree` cannot panic. */
    method FreeSlot(i: nat, k: nat, a: nat, ghost im: Image)
      requires Inv(sb, im, {}) && WellFormed(sb, Img()) && i in im.inodes && k < SLOTS
      requires Freeing(sb, im, blocks, i, Turn(k)) && a == Slot(im.blocks, im.inodes[i], k) != 0
      modifies `blocks, `calls
      ensures Freeing(sb, im, blocks, i, Turn(k) + 1)
      ensures sb.nmeta <= a < sb.size && calls == old(calls) + [BBlock(sb, a)]
      ensures Logged(old(blocks), blocks, old(calls), calls, {})
    {
      hide Owned, Mapped, Slot, Logged;
      FreedNext(sb, im, i, k);
      ghost var held := im.own.Keys - Freed(im.own, i, Turn(k));
      assert BitExact(sb, blocks, held, a);
      Bfree(a, held);
      assert held - {a} == im.own.Keys - Freed(im.own, i, Turn(k) + 1);
    }

    /** Only bitmap blocks were logged since `was`. */
    ghost predicate OnlyBitmap(was: seq<nat>)
      reads this
    {
      was <= calls && forall j :: |was| <= j < |calls| ==> sb.bmapstart <= calls[j] < sb.nmeta
    }

    method FreeDirect(i: nat)
      requires Valid() && i in inodes
      modifies `blocks, `inodes, `calls
      ensures Freeing(sb, old(Img()), blocks, i, NDIRECT) && WellFormed(sb, Img()) && OnlyBitmap(old(calls))
      ensures Logged(old(blocks), blocks, old(calls), calls, {})
      ensures inodes == old(inodes)[i := old(inodes[i]).(addrs := Zeroed(old(inodes[i]).addrs, NDIRECT))]
    {
      hide Owned, Mapped, BitsExact, Used, Logged;
      ghost var im := Img();
      var ip := inodes[i];
      LoggedNone(blocks, calls);
      assert im.own.Keys - Freed(im.own, i, 0) == im.own.Keys + {};
      assert ip.addrs == Zeroed(ip.addrs, 0);
      assert inodes == old(inodes)[i := ip.(addrs := Zeroed(ip.addrs, 0))];
      for k := 0 to NDIRECT
        invariant Freeing(sb, im, blocks, i, k) && inodes == old(inodes)[i := ip.(addrs := Zeroed(ip.addrs, k))]
        invariant WellFormed(sb, Img()) && OnlyBitmap(old(calls)) && Logged(im.blocks, blocks, old(calls), calls, {})
      {
        FreedNext(sb, im, i, k);
        var a := inodes[i].addrs[k];
        if a != 0 {
          ghost var bl, now := blocks, calls;
          FreeSlot(i, k, a, im);
          LoggedThen(im.blocks, bl, blocks, old(calls), now, calls, {});
          BitmapFits(sb, im, a);
          inodes := inodes[i := inodes[i].(addrs := inodes[i].addrs[k := 0])];
        }
        assert inodes[i].addrs == Zeroed(ip.addrs, k + 1);
      }
    }

    method FreeIndirect(i: nat, a: nat, ghost im: Image)
      requires Inv(sb, im, {}) && WellFormed(sb, Img()) && i in im.inodes && Freeing(sb, im, blocks, i, NDIRECT)
      requires a == im.inodes[i].addrs[INDIRECT] != 0
      modifies `blocks, `calls
      ensures Freeing(sb, im, blocks, i, SLOTS) && OnlyBitmap(old(calls))
              && Logged(old(blocks), blocks, old(calls), calls, {})
    {
      hide Owned, Mapped, BitsExact, Used, Logged;
      IndirectOwned(sb, im, i);
      LoggedNone(blocks, calls);
      var bp := blocks[a];
      for j := 0 to NINDIRECT
        invariant Freeing(sb, im, blocks, i, NDIRECT + j) && WellFormed(sb, Img()) && OnlyBitmap(old(calls))
        invariant Logged(old(blocks), blocks, old(calls), calls, {})
      {
        FreedNext(sb, im, i, INDIRECT + 1 + j);
        if Word(bp, j) != 0 {
          ghost var bl, now := blocks, calls;
          FreeSlot(i, INDIRECT + 1 + j, Word(bp, j), im);
          LoggedThen(old(blocks), bl, blocks, old(calls), now, calls, {});
          BitmapFits(sb, im, Word(bp, j));
        }
      }
      ghost var bl, now := blocks, calls;
      FreeSlot(i, INDIRECT, a, im);
      LoggedThen(old(blocks), bl, blocks, old(calls), now, calls, {});
      BitmapFits(sb, im, a);
    }

    method FreeAll(i: nat)
      requires Valid() && i in inodes
      modifies `blocks, `inodes, `calls
      ensures Freeing(sb, old(Img()), blocks, i, SLOTS) && OnlyBitmap(old(calls))
      ensures Logged(old(blocks), blocks, old(calls), calls, {})
      ensures inodes == old(inodes)[i := Empty().(size := old(inodes[i].size))]
    {
      hide Owned, Mapped, BitsExact, Used, Freeing, Logged;
      ghost var im := Img();
      FreeDirect(i);
      var a := inodes[i].addrs[INDIRECT];
      if a != 0 {
        ghost var bl, now := blocks, calls;
        FreeIndirect(i, a, im);
        LoggedThen(im.blocks, bl, blocks, old(calls), now, calls, {});
        inodes := inodes[i := inodes[i].(addrs := inodes[i].addrs[INDIRECT := 0])];
      } else {
        NoIndirect(sb, im, i, blocks);
      }
      assert inodes[i].addrs == Empty().addrs;
    }

    /** `itrunc`: gives back exactly the file's own blocks. */
    method Itrunc(i: nat)
      requires Valid() && i in inodes
      modifies this
      ensures Valid() && OthersKept(old(Img()), Img(), i) && i in inodes && inodes[i] == Empty()
      ensures forall j :: j in old(inodes) && j != i ==> j in inodes && Contents(Img(), j) == old(Contents(Img(), j))
      ensures own == Dropped(old(own), i) && dinodes == old(dinodes)[i := Empty()]
      ensures forall b :: 0 <= b < sb.size ==>
                (Used(sb, blocks, b) <==> Used(sb, old(blocks), b) && !(b in old(own) && old(own)[b].0 == i))
      ensures Logged(old(blocks), blocks, old(calls), calls, {}) && old(calls) < calls
              && calls[|calls| - 1] == IBlock(i)
      ensures forall j :: |old(calls)| <= j < |calls| - 1 ==> sb.bmapstart <= calls[j] < sb.nmeta
    {
      hide Owned, Mapped, BitsExact, OthersKept, Used, Freeing, Dropped, Logged, Contents;
      ghost var im := Img();
      FreeAll(i);
      inodes := inodes[i := inodes[i].(size := 0)];
      own := Dropped(own, i);
      assert inodes == im.inodes[i := Empty()];
      TruncatedKeepsInv(sb, im, blocks, i);
      forall b | 0 <= b < sb.size
        ensures Used(sb, blocks, b) <==> Used(sb, im.blocks, b) && !(b in im.own && im.own[b].0 == i)
      {
        TruncatedBit(sb, im, blocks, i, b);
      }
      OthersRead(sb, im, Img(), i);
      LoggedCall(im.blocks, blocks, old(calls), calls, IBlock(i), {});
      Iupdate(i);
    }

    // ----- kernel/file.c -----

    /** One transaction of `filewrite`: `n1` bytes were asked for, `r` reported, `p` put down. */
    method WriteChunk(i: nat, off: nat, src: seq<Byte>, done: nat, n: int, ghost im: Image, ghost was: seq<nat>)
      returns (n1: nat, r: int, ghost p: nat, ghost tx: seq<nat>, ghost full: bool, ghost torn: set<nat>)
      requires Valid() && i in inodes && i in im.inodes && off < 0x1_0000_0000 && n < 0x8000_0000
      requires done <= |src| <= n && done < n && OthersKept(im, Img(), i) && InChunks(done, n) && done <= Fit(off, n)
      requires if off > im.inodes[i].size then Img() == im && done == 0 else FileHas(im, Img(), i, off, src, done, done)
      requires off <= im.inodes[i].size ==>
                 Reached(sb, im, Img(), i, BlockOf(off), EndBlock(off, done, done), was, calls)
      modifies this
      ensures Valid() && i in inodes && OthersKept(im, Img(), i)
      ensures calls == old(calls) + tx && FitsBudget(tx)
      ensures 0 < n1 == Min(n - done, CHUNK) && r <= n1 && Max(r, 0) <= p && done + p <= |src|
      ensures if off > im.inodes[i].size then Img() == im && r == -1 && p == 0
              else FileHas(im, Img(), i, off, src, done + Max(r, 0), done + p)
      ensures r == n1 ==> p == n1 && !full && done + n1 <= Fit(off, n)
      ensures r == n1 ==> Reached(sb, im, Img(), i, BlockOf(off), EndBlock(off, done + n1, done + n1), was, calls)
      ensures full ==> forall c :: 0 <= c < sb.size ==> Used(sb, blocks, c)
      ensures r != n1 && off <= im.inodes[i].size ==>
                FileStops(sb, im, i, off, |src|, n, done + Max(r, 0), done + p, full)
      ensures Logged(old(blocks), blocks, [], tx, torn) && (forall b :: b in torn ==> b !in tx)
      ensures |torn| <= 1 && (p == Max(r, 0) ==> torn == {})
    {
      hide Inv, OthersKept, Used, Contents, Overlaid, FitsBudget, Whole, Stops, FileStops,
           Reached, WriteLogs, Logged, EndBlock, BlockOf, BlockAt, Fit, InChunks, FileHas;
      n1 := Min(n - done, CHUNK);
      ghost var mid, now := Img(), calls;
      var chunk := src[done..done + Min(|src| - done, n1)];
      if off <= im.inodes[i].size {
        FileSize(im, mid, i, off, src, done, done);
      }
      r, p, full := Writei(i, off + done, chunk, n1);
      OthersKeptTransitive(im, mid, Img(), i);
      if r == -1 {
        p, full, tx, torn := 0, false, [], {};
        BudgetNone();
        LoggedNone(blocks, []);
        if off <= im.inodes[i].size {
          NextFits(off, done, n);
          FileDone(sb, im, mid, i, off, |src|, n, done, was, now);
        }
      } else {
        NextFits(off, done, n);
        tx := calls[|old(calls)|..];
        assert calls == now + tx;
        torn := if p != r then BlockAt(mid, i, BlockOf(off + done + |chunk|)) else {};
        TornOf(mid, Img(), i, off + done, |chunk|, p != r, now, tx);
        SameSlice(src, done, |chunk|, p);
        FileMore(sb, im, mid, Img(), i, off, src, done, r, p);
        if r == n1 {
          FullChunk(sb, mid, i, off + done, |chunk|, n1, p, full);
          ChunkNext(sb, im, mid, Img(), i, off, done, n1, was, now, calls);
        } else {
          ChunkStops(sb, im, mid, i, off, |src|, n, done, r, p, full, was, now);
        }
      }
    }

    /** `filewrite` on an inode: chunk after chunk, each a transaction within its budget. It returns `n`, or -1
        after the first chunk that falls short; the offset has then moved past the bytes reported so far. `steps`
        are the blocks between its transactions. */
    method Filewrite(i: nat, off: nat, src: seq<Byte>, n: int)
      returns (ret: int, off': nat, ghost put: nat, ghost full: bool,
               ghost txs: seq<seq<nat>>, ghost steps: seq<seq<Block>>, ghost torn: set<nat>)
      requires Valid() && i in inodes && off < 0x1_0000_0000 && n < 0x8000_0000 && |src| <= Max(0, n)
      modifies this
      ensures Valid() && OthersKept(old(Img()), Img(), i)
      ensures forall j :: j in old(inodes) && j != i ==> j in inodes && Contents(Img(), j) == old(Contents(Img(), j))
      ensures ret == (if off' - off == n then n else -1) && off <= off' <= off + put && put <= |src|
      ensures full ==> forall c :: 0 <= c < sb.size ==> Used(sb, blocks, c)
      ensures if off > old(inodes[i].size) then Img() == old(Img()) && off' == off && put == 0
              else FileStops(sb, old(Img()), i, off, |src|, n, off' - off, put, full)
                   && FileHas(old(Img()), Img(), i, off, src, off' - off, put)
      ensures calls == old(calls) + Total(txs) && forall t :: t in txs ==> FitsBudget(t)
      ensures TxsLog(steps, txs, torn) && steps[0] == old(blocks) && steps[|txs|] == blocks
      ensures |torn| <= 1 && (put == off' - off ==> torn == {})
    {
      hide Inv, OthersKept, Used, Contents, FileHas, FitsBudget, Total, Whole, Reported, FileStops, Reached, TxsLog,
           Logged, EndBlock, BlockOf, Fit;
      ghost var im := Img();
      Untouched(sb, im, i);
      FileStart(sb, im, i, off, src);
      var done := 0;
      off', put, full := off, 0, false;
      txs, steps, torn := [], [blocks], {};
      TotalNone();
      TxsNone(blocks);
      if off <= inodes[i].size {
        FileReached(sb, im, i, off, calls);
      }
      assert calls == old(calls) + [];
      while done < n
        invariant 0 <= done <= Max(0, n) && done <= |src| && put == done && off' == off + done && !full
                  && done <= Fit(off, n)
        invariant InChunks(done, n) && torn == {}
        invariant Valid() && i in inodes && OthersKept(im, Img(), i)
        invariant if off > im.inodes[i].size then Img() == im && done == 0
                  else FileHas(im, Img(), i, off, src, done, done)
        invariant off <= im.inodes[i].size ==>
                    Reached(sb, im, Img(), i, BlockOf(off), EndBlock(off, done, done), old(calls), calls)
        invariant calls == old(calls) + Total(txs) && forall t :: t in txs ==> FitsBudget(t)
        invariant TxsLog(steps, txs, torn) && |steps| == |txs| + 1 && steps[0] == old(blocks) && steps[|txs|] == blocks
      {
        var n1, r;
        ghost var p, tx;
        n1, r, p, tx, full, torn := WriteChunk(i, off, src, done, n, im, old(calls));
        ChunkStep(off, done, n, |src|);
        TotalNext(txs, tx);
        TxsNext(steps, txs, tx, blocks, torn);
        assert calls == old(calls) + (Total(txs) + tx);
        txs, put, steps := txs + [tx], done + p, steps + [blocks];
        if r > 0 {
          off' := off' + r;
        }
        if r != n1 {
          OthersRead(sb, im, Img(), i);
          return -1, off', put, full, txs, steps, torn;
        }
        done := done + r;
      }
      ret := if done == n then n else -1;
      OthersRead(sb, im, Img(), i);
      if off <= im.inodes[i].size {
        FileAll(sb, im, Img(), i, off, |src|, n, done, old(calls), calls);
      }
    }
  }
}
