/** How much room a write needs, and what it logs: the free blocks of a disk, the blocks a range of a file lacks,
    and which changes of blocks have been handed to the log. */
module FsSpace {
  import opened Blocks
  import opened Fs

  // ----- What was logged -----

  /** The calls of `log_write` after `was`. */
  function Since(was: seq<nat>, now: seq<nat>): seq<nat> {
    if was <= now then now[|was|..] else []
  }

  /** Every block that differs was logged, except those in `ex`. */
  ghost predicate Logged(bl: seq<Block>, bl': seq<Block>, was: seq<nat>, now: seq<nat>, ex: set<nat>) {
    && |bl'| == |bl| && was <= now
    && forall b :: 0 <= b < |bl| && bl'[b] != bl[b] ==> b in Since(was, now) || b in ex
  }

  lemma SinceThen(was: seq<nat>, now: seq<nat>, now': seq<nat>)
    requires was <= now <= now'
    ensures was <= now' && Since(was, now') == Since(was, now) + Since(now, now')
  {
  }

  lemma SinceAppended(was: seq<nat>, more: seq<nat>)
    ensures Since(was, was + more) == more
  {
  }

  lemma LoggedNone(bl: seq<Block>, was: seq<nat>)
    ensures Logged(bl, bl, was, was, {})
  {
  }

  lemma LoggedOne(bl: seq<Block>, b: nat, v: Block, was: seq<nat>)
    requires b < |bl|
    ensures Logged(bl, bl[b := v], was, was + [b], {})
  {
    SinceAppended(was, [b]);
  }

  lemma LoggedThen(bl: seq<Block>, bl1: seq<Block>, bl2: seq<Block>, was: seq<nat>, now: seq<nat>, now': seq<nat>,
                   ex: set<nat>)
    requires Logged(bl, bl1, was, now, {}) && Logged(bl1, bl2, now, now', ex)
    ensures Logged(bl, bl2, was, now', ex)
  {
    SinceThen(was, now, now');
    hide Since;
  }

  /** A block that was logged before may change again. */
  lemma LoggedAgain(bl: seq<Block>, bl1: seq<Block>, was: seq<nat>, now: seq<nat>, b: nat, v: Block)
    requires Logged(bl, bl1, was, now, {}) && b < |bl1|
    ensures Logged(bl, bl1[b := v], was, now, if b in Since(was, now) then {} else {b})
  {
  }

  lemma LoggedCall(bl: seq<Block>, bl': seq<Block>, was: seq<nat>, now: seq<nat>, c: nat, ex: set<nat>)
    requires Logged(bl, bl', was, now, ex)
    ensures Logged(bl, bl', was, now + [c], ex)
  {
    SinceThen(was, now, now + [c]);
  }

  lemma TakenLogged(sb: Super, im: Image, b: nat, was: seq<nat>)
    requires b < |im.blocks| && BBlock(sb, b) < |im.blocks|
    ensures Logged(im.blocks, Taken(sb, im, b).blocks, was, was + [BBlock(sb, b), b], {})
  {
    SinceAppended(was, [BBlock(sb, b), b]);
  }

  // ----- Free blocks -----

  predicate IsFree(sb: Super, bl: seq<Block>, c: nat) {
    !(BBlock(sb, c) < |bl| && Used(sb, bl, c))
  }

  /** How many blocks have their bit clear. */
  function Free(sb: Super, bl: seq<Block>): nat {
    |set c | 0 <= c < sb.size && IsFree(sb, bl, c)|
  }

  function Numbers(lo: nat, hi: nat): (s: set<nat>)
    requires lo <= hi
    ensures |s| == hi - lo && forall c :: c in s <==> lo <= c < hi
    decreases hi
  {
    if lo == hi then {} else Numbers(lo, hi - 1) + {hi - 1}
  }

  lemma FreeIsUnowned(sb: Super, im: Image, c: nat)
    requires Inv(sb, im, {}) && c < sb.size
    ensures IsFree(sb, im.blocks, c) <==> sb.nmeta <= c && c !in im.own
  {
    BitmapFits(sb, im, c);
    assert BitExact(sb, im.blocks, im.own.Keys + {}, c);
  }

  lemma OwnedIsData(sb: Super, im: Image)
    requires Inv(sb, im, {})
    ensures sb.nmeta <= sb.size && forall b :: b in im.own ==> sb.nmeta <= b < sb.size
  {
    hide Mapped, BitsExact;
  }

  lemma FreeByOwn(sb: Super, im: Image)
    requires Inv(sb, im, {})
    ensures Free(sb, im.blocks) == sb.size - sb.nmeta - |im.own.Keys|
  {
    hide Inv, IsFree, Numbers;
    OwnedIsData(sb, im);
    var free := set c | 0 <= c < sb.size && IsFree(sb, im.blocks, c);
    forall c | 0 <= c < sb.size ensures IsFree(sb, im.blocks, c) <==> sb.nmeta <= c && c !in im.own.Keys {
      FreeIsUnowned(sb, im, c);
    }
    TheOthers(sb.nmeta, sb.size, free, im.own.Keys);
  }

  lemma TheOthers(lo: nat, hi: nat, a: set<nat>, b: set<nat>)
    requires lo <= hi && (forall c :: c in a ==> lo <= c < hi && c !in b) && forall c :: c in b ==> lo <= c < hi
    requires forall c :: lo <= c < hi && c !in b ==> c in a
    ensures |a| + |b| == hi - lo
  {
    assert Numbers(lo, hi) == a + b;
  }

  lemma SameOwnSameFree(sb: Super, im: Image, im': Image)
    requires Inv(sb, im, {}) && Inv(sb, im', {}) && im'.own == im.own
    ensures Free(sb, im'.blocks) == Free(sb, im.blocks)
  {
    hide Inv, Free;
    FreeByOwn(sb, im);
    FreeByOwn(sb, im');
  }

  lemma NoneFree(sb: Super, im: Image)
    requires Inv(sb, im, {}) && forall c :: 0 <= c < sb.size ==> Used(sb, im.blocks, c)
    ensures Free(sb, im.blocks) == 0
  {
    hide Owned, Mapped, BitsExact;
    var free := set c | 0 <= c < sb.size && IsFree(sb, im.blocks, c);
    forall c | 0 <= c < sb.size ensures c !in free {
      BitmapFits(sb, im, c);
    }
    assert free == {};
  }

  lemma GaveFree(sb: Super, im: Image, im': Image, i: nat, k: nat, b: nat)
    requires Inv(sb, im, {}) && Gave(sb, im, im', i, k, b)
    ensures Free(sb, im'.blocks) == Free(sb, im.blocks) - 1
  {
    hide Inv, Free, Preserved, Slot;
    FreeByOwn(sb, im);
    FreeByOwn(sb, im');
    assert im'.own.Keys == im.own.Keys + {b};
  }

  // ----- What a range of a file lacks -----

  predicate NoIndirectBlock(im: Image, i: nat) {
    i in im.inodes && |im.inodes[i].addrs| == NDIRECT + 1 && im.inodes[i].addrs[INDIRECT] == 0
  }

  /** Block `n` of file `i` is not there. */
  predicate Hole(im: Image, i: nat, n: nat) {
    n < MAXFILE && i in im.inodes && |im.inodes[i].addrs| == NDIRECT + 1 && Addr(im.blocks, im.inodes[i], n) == 0
  }

  /** How many blocks `bmap` must allocate for block `n`. */
  function Need(im: Image, i: nat, n: nat): nat {
    (if Hole(im, i, n) then 1 else 0) + (if NDIRECT <= n && NoIndirectBlock(im, i) then 1 else 0)
  }

  function Holes(im: Image, i: nat, lo: nat, hi: nat): nat {
    if hi <= lo then 0 else Holes(im, i, lo, hi - 1) + if Hole(im, i, hi - 1) then 1 else 0
  }

  /** How many it must allocate for blocks `lo..hi`, one after the other. */
  function Needs(im: Image, i: nat, lo: nat, hi: nat): nat {
    Holes(im, i, lo, hi) + if lo < hi && NDIRECT < hi && NoIndirectBlock(im, i) then 1 else 0
  }

  lemma {:induction false} NeedsGrow(im: Image, i: nat, lo: nat, hi: nat, hi': nat)
    requires hi <= hi'
    ensures Needs(im, i, lo, hi) <= Needs(im, i, lo, hi')
    decreases hi'
  {
    if hi < hi' {
      NeedsGrow(im, i, lo, hi, hi' - 1);
    }
  }

  lemma {:induction false} SameHoles(im: Image, im': Image, i: nat, lo: nat, hi: nat)
    requires forall c :: lo <= c < hi ==> (Hole(im', i, c) <==> Hole(im, i, c))
    ensures Holes(im', i, lo, hi) == Holes(im, i, lo, hi)
    decreases hi
  {
    if lo < hi {
      SameHoles(im, im', i, lo, hi - 1);
    }
  }

  lemma {:induction false} HolesSplit(im: Image, i: nat, lo: nat, mid: nat, hi: nat)
    requires lo <= mid <= hi
    ensures Holes(im, i, lo, hi) == Holes(im, i, lo, mid) + Holes(im, i, mid, hi)
    decreases hi
  {
    if mid < hi {
      HolesSplit(im, i, lo, mid, hi - 1);
    }
  }

  lemma HolesFirst(im: Image, i: nat, lo: nat, hi: nat)
    requires lo < hi && !Hole(im, i, lo)
    ensures Holes(im, i, lo, hi) == Holes(im, i, lo + 1, hi)
  {
    HolesSplit(im, i, lo, lo + 1, hi);
    assert Holes(im, i, lo, lo) == 0 && Holes(im, i, lo, lo + 1) == 0;
  }

  // ----- bmap -----

  /** `bmap` succeeds exactly when there are blocks enough, and uses exactly what is needed. */
  ghost predicate Fills(sb: Super, im: Image, im': Image, i: nat, bn: nat, addr: nat) {
    && (addr != 0 <==> Need(im, i, bn) <= Free(sb, im.blocks))
    && (addr != 0 ==> Free(sb, im'.blocks) == Free(sb, im.blocks) - Need(im, i, bn))
  }

  lemma FillsFound(sb: Super, im: Image, i: nat, bn: nat)
    requires Inv(sb, im, {}) && i in im.inodes && bn < MAXFILE && Addr(im.blocks, im.inodes[i], bn) != 0
    ensures Fills(sb, im, im, i, bn, Addr(im.blocks, im.inodes[i], bn))
  {
  }

  lemma FillsNone(sb: Super, im: Image, i: nat, bn: nat)
    requires Inv(sb, im, {}) && i in im.inodes && bn < MAXFILE && Addr(im.blocks, im.inodes[i], bn) == 0
    requires forall c :: 0 <= c < sb.size ==> Used(sb, im.blocks, c)
    ensures Fills(sb, im, im, i, bn, 0)
  {
    NoneFree(sb, im);
  }

  lemma FillsGiven(sb: Super, im: Image, im': Image, i: nat, bn: nat, addr: nat)
    requires Inv(sb, im, {}) && i in im.inodes && bn < MAXFILE && Addr(im.blocks, im.inodes[i], bn) == 0
    requires bn < NDIRECT || im.inodes[i].addrs[INDIRECT] != 0
    requires Gave(sb, im, im', i, DataSlot(bn), addr)
    ensures Fills(sb, im, im', i, bn, addr)
  {
    GaveFree(sb, im, im', i, DataSlot(bn), addr);
    hide Owned, Mapped, BitsExact, Preserved, Free;
  }

  lemma NeedsBoth(sb: Super, im: Image, im1: Image, i: nat, bn: nat, ind: nat)
    requires Inv(sb, im, {}) && i in im.inodes && NDIRECT <= bn < MAXFILE && im.inodes[i].addrs[INDIRECT] == 0
    requires Gave(sb, im, im1, i, INDIRECT, ind)
    ensures Need(im, i, bn) == 2 && Need(im1, i, bn) == 1
  {
    hide Owned, Mapped, BitsExact, Kept;
    assert Slot(im1.blocks, im1.inodes[i], bn + 1) == Slot(im.blocks, im.inodes[i], bn + 1);
  }

  lemma FillsThrough(sb: Super, im: Image, im1: Image, im2: Image, i: nat, bn: nat, ind: nat, addr: nat)
    requires Inv(sb, im, {}) && i in im.inodes && NDIRECT <= bn < MAXFILE && im.inodes[i].addrs[INDIRECT] == 0
    requires Gave(sb, im, im1, i, INDIRECT, ind) && Fills(sb, im1, im2, i, bn, addr)
    ensures Fills(sb, im, im2, i, bn, addr)
  {
    hide Inv, Gave, Free, Need;
    GaveFree(sb, im, im1, i, INDIRECT, ind);
    NeedsBoth(sb, im, im1, i, bn, ind);
  }

  /** The calls after `was` name no block that was owned, but the indirect block and block `bn` of file `i`. */
  ghost predicate Spares(own: map<nat, (nat, nat)>, was: seq<nat>, now: seq<nat>, i: nat, bn: nat)
    requires bn < MAXFILE
  {
    && was <= now
    && forall c :: c in Since(was, now) && c in own ==> own[c] == (i, INDIRECT) || own[c] == (i, DataSlot(bn))
  }

  /** What `bmap` logs: every block it changes, a block it allocates, and nothing else that belongs to a file. */
  ghost predicate MapLogs(im: Image, im': Image, i: nat, bn: nat, addr: nat, was: seq<nat>, now: seq<nat>)
    requires bn < MAXFILE
  {
    && Logged(im.blocks, im'.blocks, was, now, {}) && Spares(im.own, was, now, i, bn)
    && (Hole(im, i, bn) && addr != 0 ==> addr in Since(was, now))
  }

  lemma MapLogsNothing(im: Image, i: nat, bn: nat, addr: nat, was: seq<nat>)
    requires bn < MAXFILE && (addr == 0 || !Hole(im, i, bn))
    ensures MapLogs(im, im, i, bn, addr, was, was)
  {
  }

  /** The two calls of `balloc`, and of the indirect block `also` if one was changed. */
  lemma MapLogsGiven(sb: Super, im: Image, im': Image, i: nat, k: nat, bn: nat, addr: nat,
                     was: seq<nat>, now: seq<nat>, also: seq<nat>)
    requires Inv(sb, im, {}) && bn < MAXFILE && (k == INDIRECT || k == DataSlot(bn)) && Gave(sb, im, im', i, k, addr)
    requires Logged(im.blocks, im'.blocks, was, now, {}) && now == was + [BBlock(sb, addr), addr] + also
    requires also == [] || also == [im.inodes[i].addrs[INDIRECT]]
    ensures Spares(im.own, was, now, i, bn) && addr in Since(was, now)
  {
    BitmapFits(sb, im, addr);
    SinceAppended(was, [BBlock(sb, addr), addr] + also);
    assert was + ([BBlock(sb, addr), addr] + also) == now;
    assert SlotOwned(im, i, INDIRECT);
    forall c | c in Since(was, now) && c in im.own ensures im.own[c] == (i, INDIRECT) {
      assert c == im.inodes[i].addrs[INDIRECT];
    }
  }

  lemma SparesThen(own: map<nat, (nat, nat)>, own': map<nat, (nat, nat)>, was: seq<nat>, now: seq<nat>, now': seq<nat>,
                   i: nat, bn: nat)
    requires bn < MAXFILE && Spares(own, was, now, i, bn) && Spares(own', now, now', i, bn)
    requires forall b :: b in own ==> b in own' && own'[b] == own[b]
    ensures Spares(own, was, now', i, bn)
  {
    SinceThen(was, now, now');
    hide Since;
  }

  lemma MapLogsThrough(im: Image, im1: Image, im2: Image, i: nat, bn: nat, addr: nat, was: seq<nat>, now: seq<nat>,
                       now': seq<nat>)
    requires bn < MAXFILE && (Hole(im, i, bn) ==> Hole(im1, i, bn)) && Preserved(im, im1, i)
    requires Logged(im.blocks, im1.blocks, was, now, {}) && Spares(im.own, was, now, i, bn)
    requires MapLogs(im1, im2, i, bn, addr, now, now')
    ensures MapLogs(im, im2, i, bn, addr, was, now')
  {
    hide Logged, Spares, Hole;
    LoggedThen(im.blocks, im1.blocks, im2.blocks, was, now, now', {});
    SparesThen(im.own, im1.own, was, now, now', i, bn);
    NowGrows(im, im1, im2, i, bn, addr, was, now, now');
    SinceThen(was, now, now');
  }

  lemma NowGrows(im: Image, im1: Image, im2: Image, i: nat, bn: nat, addr: nat, was: seq<nat>, now: seq<nat>,
                 now': seq<nat>)
    requires bn < MAXFILE && Spares(im.own, was, now, i, bn) && MapLogs(im1, im2, i, bn, addr, now, now')
    ensures was <= now <= now'
  {
  }

  /** The indirect block is new; then `bmap` goes on. */
  lemma MapLogsBoth(sb: Super, im: Image, im1: Image, im2: Image, i: nat, bn: nat, ind: nat, addr: nat,
                    was: seq<nat>, now: seq<nat>, now': seq<nat>)
    requires Inv(sb, im, {}) && i in im.inodes && NDIRECT <= bn < MAXFILE && im.inodes[i].addrs[INDIRECT] == 0
    requires Gave(sb, im, im1, i, INDIRECT, ind) && Logged(im.blocks, im1.blocks, was, now, {})
    requires Spares(im.own, was, now, i, bn) && MapLogs(im1, im2, i, bn, addr, now, now')
    ensures MapLogs(im, im2, i, bn, addr, was, now')
  {
    hide Owned, Mapped, BitsExact, Kept, Logged, Spares, MapLogs;
    assert Slot(im1.blocks, im1.inodes[i], bn + 1) == Slot(im.blocks, im.inodes[i], bn + 1);
    MapLogsThrough(im, im1, im2, i, bn, addr, was, now, now');
  }

  // ----- A range of blocks, one after the other -----

  /** Block `c` is as it was, and has not been logged. */
  ghost predicate Waits(im0: Image, im: Image, i: nat, c: nat, was: seq<nat>, now: seq<nat>)
    requires c < MAXFILE && i in im0.inodes && i in im.inodes
    requires |im0.inodes[i].addrs| == NDIRECT + 1 == |im.inodes[i].addrs|
  {
    var a := Addr(im0.blocks, im0.inodes[i], c);
    Addr(im.blocks, im.inodes[i], c) == a && (a != 0 ==> a !in Since(was, now))
  }

  /** From `im0` on, exactly what blocks `lo..bn` of file `i` need was allocated; the later ones wait. */
  ghost predicate Reached(sb: Super, im0: Image, im: Image, i: nat, lo: nat, bn: nat, was: seq<nat>, now: seq<nat>) {
    && i in im0.inodes && i in im.inodes && |im0.inodes[i].addrs| == NDIRECT + 1 == |im.inodes[i].addrs|
    && lo <= bn <= MAXFILE && was <= now
    && Free(sb, im.blocks) == Free(sb, im0.blocks) - Needs(im0, i, lo, bn)
    && (NoIndirectBlock(im, i) <==> NoIndirectBlock(im0, i) && !(lo < bn && NDIRECT < bn))
    && (forall b :: b in im0.own ==> b in im.own && im.own[b] == im0.own[b])
    && forall c :: bn <= c < MAXFILE ==> Waits(im0, im, i, c, was, now)
  }

  lemma ReachedNone(sb: Super, im: Image, i: nat, lo: nat, was: seq<nat>)
    requires i in im.inodes && |im.inodes[i].addrs| == NDIRECT + 1 && lo <= MAXFILE
    ensures Reached(sb, im, im, i, lo, lo, was, was)
  {
  }

  /** What the next block needs is what the range then needs more. */
  lemma NeedsNext(sb: Super, im0: Image, im: Image, i: nat, lo: nat, bn: nat, was: seq<nat>, now: seq<nat>)
    requires Reached(sb, im0, im, i, lo, bn, was, now) && bn < MAXFILE
    ensures Needs(im0, i, lo, bn + 1) == Needs(im0, i, lo, bn) + Need(im, i, bn)
    ensures Need(im, i, bn) <= Free(sb, im.blocks) <==> Needs(im0, i, lo, bn + 1) <= Free(sb, im0.blocks)
  {
    hide Free;
    assert Waits(im0, im, i, bn, was, now);
  }

  /** A later block waits on while `bmap` works on block `bn`. */
  lemma WaitsOn(sb: Super, im0: Image, im: Image, im': Image, i: nat, bn: nat, addr: nat, c: nat,
                was: seq<nat>, now: seq<nat>, now': seq<nat>)
    requires Inv(sb, im, {}) && i in im.inodes && i in im0.inodes && |im0.inodes[i].addrs| == NDIRECT + 1
    requires bn < c < MAXFILE && MapsTo(sb, im, im', i, bn, addr) && i in im'.inodes
             && |im'.inodes[i].addrs| == NDIRECT + 1
    requires was <= now && Spares(im.own, now, now', i, bn) && Waits(im0, im, i, c, was, now)
    ensures Waits(im0, im', i, c, was, now')
  {
    hide Mapped, BitsExact;
    SinceThen(was, now, now');
    assert SlotOwned(im, i, DataSlot(c)) && SlotOwned(im', i, DataSlot(c));
    assert BlockKept(im, im', i, c);
  }

  lemma IndirectAfter(sb: Super, im: Image, im': Image, i: nat, bn: nat, addr: nat)
    requires Inv(sb, im, {}) && i in im.inodes && bn < MAXFILE && MapsTo(sb, im, im', i, bn, addr) && addr != 0
    ensures NoIndirectBlock(im', i) <==> NoIndirectBlock(im, i) && bn < NDIRECT
  {
    hide Mapped, BitsExact, Kept;
    assert SlotOwned(im, i, INDIRECT) && SlotOwned(im', i, INDIRECT);
  }

  /** One more block: `bmap` maps it, and then its contents change. */
  lemma ReachedNext(sb: Super, im0: Image, im: Image, im': Image, i: nat, lo: nat, bn: nat, addr: nat,
                    was: seq<nat>, now: seq<nat>, now': seq<nat>)
    requires Inv(sb, im, {}) && Reached(sb, im0, im, i, lo, bn, was, now) && bn < MAXFILE
    requires MapsTo(sb, im, im', i, bn, addr) && addr != 0 && Fills(sb, im, im', i, bn, addr)
    requires Spares(im.own, now, now', i, bn)
    ensures Reached(sb, im0, im', i, lo, bn + 1, was, now')
  {
    hide Free, Owned, Mapped, BitsExact, Spares, Waits, Needs, Need;
    NeedsNext(sb, im0, im, i, lo, bn, was, now);
    IndirectAfter(sb, im, im', i, bn, addr);
    forall c | bn < c < MAXFILE ensures Waits(im0, im', i, c, was, now') {
      assert Waits(im0, im, i, c, was, now);
      WaitsOn(sb, im0, im, im', i, bn, addr, c, was, now, now');
    }
    assert now <= now' by { SparesGrows(im.own, now, now', i, bn); }
  }

  lemma SparesGrows(own: map<nat, (nat, nat)>, was: seq<nat>, now: seq<nat>, i: nat, bn: nat)
    requires bn < MAXFILE && Spares(own, was, now, i, bn)
    ensures was <= now
  {
  }

  /** Nothing moves when block contents change and calls are added that name no waiting block. */
  lemma ReachedStill(sb: Super, im0: Image, im: Image, im': Image, i: nat, lo: nat, bn: nat,
                     was: seq<nat>, now: seq<nat>, more: seq<nat>)
    requires Reached(sb, im0, im, i, lo, bn, was, now) && Free(sb, im'.blocks) == Free(sb, im.blocks)
    requires i in im'.inodes && im'.inodes[i].addrs == im.inodes[i].addrs && im'.own == im.own
    requires forall c :: 0 <= c < MAXFILE ==> Addr(im'.blocks, im'.inodes[i], c) == Addr(im.blocks, im.inodes[i], c)
    requires forall c :: bn <= c < MAXFILE && Addr(im.blocks, im.inodes[i], c) != 0 ==>
               Addr(im.blocks, im.inodes[i], c) !in more
    ensures Reached(sb, im0, im', i, lo, bn, was, now + more)
  {
    hide Free, Addr, Needs;
    SinceThen(was, now, now + more);
    SinceAppended(now, more);
    forall c | bn <= c < MAXFILE ensures Waits(im0, im', i, c, was, now + more) {
      assert Waits(im0, im, i, c, was, now);
    }
  }

  /** The address of block `n`, 0 if there is none. */
  function AddrOf(im: Image, i: nat, n: nat): nat {
    if n < MAXFILE && i in im.inodes && |im.inodes[i].addrs| == NDIRECT + 1 then Addr(im.blocks, im.inodes[i], n) else 0
  }

  /** Block `n`, if it is there. */
  function BlockAt(im: Image, i: nat, n: nat): set<nat> {
    {AddrOf(im, i, n)} - {0}
  }

  /** Between two rounds of a write: blocks `lo..bn` are done, and every change is logged. */
  ghost predicate Rounds(sb: Super, im0: Image, im: Image, i: nat, lo: nat, bn: nat, was: seq<nat>, now: seq<nat>) {
    Reached(sb, im0, im, i, lo, bn, was, now) && Logged(im0.blocks, im.blocks, was, now, {})
  }

  lemma RoundStart(sb: Super, im: Image, i: nat, lo: nat, was: seq<nat>)
    requires i in im.inodes && |im.inodes[i].addrs| == NDIRECT + 1 && lo <= MAXFILE
    ensures Rounds(sb, im, im, i, lo, lo, was, was)
  {
    ReachedNone(sb, im, i, lo, was);
    LoggedNone(im.blocks, was);
  }

  lemma WaitsAt(sb: Super, im0: Image, im: Image, i: nat, lo: nat, bn: nat, was: seq<nat>, now: seq<nat>)
    requires Reached(sb, im0, im, i, lo, bn, was, now) && bn < MAXFILE
    ensures AddrOf(im, i, bn) == AddrOf(im0, i, bn) && (Hole(im, i, bn) <==> AddrOf(im, i, bn) == 0)
    ensures AddrOf(im, i, bn) != 0 ==> AddrOf(im, i, bn) !in Since(was, now)
  {
    hide Free, Addr, Needs;
    assert Waits(im0, im, i, bn, was, now);
  }

  /** The first half of a round: `bmap`. A block that was there before the write is not in the log yet. */
  lemma RoundMapped(sb: Super, im0: Image, im: Image, im': Image, i: nat, lo: nat, bn: nat, addr: nat,
                    was: seq<nat>, now: seq<nat>, now': seq<nat>)
    requires Inv(sb, im, {}) && Rounds(sb, im0, im, i, lo, bn, was, now) && bn < MAXFILE
    requires MapsTo(sb, im, im', i, bn, addr) && Fills(sb, im, im', i, bn, addr)
             && MapLogs(im, im', i, bn, addr, now, now')
    requires AddrOf(im, i, bn) != 0 ==> now' == now && addr == AddrOf(im, i, bn)
    ensures Needs(im0, i, lo, bn) <= Free(sb, im0.blocks)
    ensures addr != 0 <==> Needs(im0, i, lo, bn + 1) <= Free(sb, im0.blocks)
    ensures addr != 0 ==> Rounds(sb, im0, im', i, lo, bn + 1, was, now')
    ensures Logged(im0.blocks, im'.blocks, was, now', {})
    ensures addr != 0 ==> BlockAt(im0, i, bn) == if addr in Since(was, now') then {} else {addr}
  {
    hide Free, Needs, Inv, MapsTo, Spares, Logged, Addr, Waits, Since;
    NeedsNext(sb, im0, im, i, lo, bn, was, now);
    WaitsAt(sb, im0, im, i, lo, bn, was, now);
    LoggedThen(im0.blocks, im.blocks, im'.blocks, was, now, now', {});
    SparesGrows(im.own, now, now', i, bn);
    SinceThen(was, now, now');
    if addr != 0 {
      ReachedNext(sb, im0, im, im', i, lo, bn, addr, was, now, now');
    }
  }

  lemma OtherBlocks(sb: Super, im: Image, i: nat, bn: nat, c: nat)
    requires Inv(sb, im, {}) && i in im.inodes && bn < MAXFILE && c < MAXFILE && c != bn
    requires Addr(im.blocks, im.inodes[i], bn) != 0
    ensures Addr(im.blocks, im.inodes[i], c) != Addr(im.blocks, im.inodes[i], bn)
  {
    assert SlotOwned(im, i, DataSlot(bn)) && SlotOwned(im, i, DataSlot(c));
  }

  /** The second half: the block gets new contents. It is logged after a copy that succeeds. */
  lemma RoundWritten(sb: Super, im0: Image, im: Image, i: nat, lo: nat, bn: nat, v: Block, more: seq<nat>,
                     was: seq<nat>, now: seq<nat>)
    requires Inv(sb, im, {}) && i in im.inodes && bn < MAXFILE && Rounds(sb, im0, im, i, lo, bn + 1, was, now)
    requires Addr(im.blocks, im.inodes[i], bn) != 0 && (more == [] || more == [Addr(im.blocks, im.inodes[i], bn)])
    ensures var a := Addr(im.blocks, im.inodes[i], bn);
            && a < |im.blocks| && var im' := im.(blocks := im.blocks[a := v]);
            && Reached(sb, im0, im', i, lo, bn + 1, was, now + more)
            && Logged(im0.blocks, im'.blocks, was, now + more, if more != [] || a in Since(was, now) then {} else {a})
  {
    hide Free, Needs, Owned, Mapped, BitsExact, Logged, Addr, Waits;
    var a := Addr(im.blocks, im.inodes[i], bn);
    WriteData(sb, im, i, bn, v);
    var im' := im.(blocks := im.blocks[a := v]);
    SameOwnSameFree(sb, im, im');
    forall c | bn < c < MAXFILE ensures Addr(im.blocks, im.inodes[i], c) != a {
      OtherBlocks(sb, im, i, bn, c);
    }
    ReachedStill(sb, im0, im, im', i, lo, bn + 1, was, now, more);
    if more == [] {
      LoggedAgain(im0.blocks, im.blocks, was, now, a, v);
      assert now + more == now;
    } else {
      LoggedOne(im.blocks, a, v, now);
      LoggedThen(im0.blocks, im.blocks, im'.blocks, was, now, now + more, {});
    }
  }

  lemma LoggedGrows(bl: seq<Block>, bl': seq<Block>, was: seq<nat>, now: seq<nat>, ex: set<nat>)
    requires Logged(bl, bl', was, now, ex)
    ensures was <= now
  {
  }

  lemma DataOnly(sb: Super, im: Image, i: nat, n: nat)
    requires Inv(sb, im, {})
    ensures AddrOf(im, i, n) == 0 || sb.nmeta <= AddrOf(im, i, n) < sb.size
    ensures forall b :: b in BlockAt(im, i, n) ==> sb.nmeta <= b < sb.size
  {
    hide Mapped, BitsExact;
    if AddrOf(im, i, n) != 0 {
      AddrOwned(sb, im, i, n);
    }
  }

  lemma LoggedTx(bl: seq<Block>, bl': seq<Block>, was: seq<nat>, tx: seq<nat>, ex: set<nat>)
    requires Logged(bl, bl', was, was + tx, ex)
    ensures Logged(bl, bl', [], tx, ex) && Since(was, was + tx) == tx
  {
    SinceAppended(was, tx);
    assert Since([], tx) == tx;
  }

  // ----- One range after another -----

  /** A second range that starts where the first ended, or in its last block, needs what the two need together
      and the first does not. */
  lemma NeedsThrough(sb: Super, im0: Image, im: Image, i: nat, lo: nat, e: nat, lo2: nat, b: nat, was: seq<nat>,
                     now: seq<nat>)
    requires Reached(sb, im0, im, i, lo, e, was, now) && lo <= lo2 <= e <= b && lo2 < b && e <= lo2 + 1
    requires b <= MAXFILE && (lo2 < e ==> !Hole(im, i, lo2))
    ensures Needs(im, i, lo2, b) == Needs(im0, i, lo, b) - Needs(im0, i, lo, e)
  {
    hide Free, Addr;
    if lo2 < e {
      HolesFirst(im, i, lo2, b);
    }
    HolesSplit(im0, i, lo, e, b);
    forall c | e <= c < b ensures Hole(im, i, c) <==> Hole(im0, i, c) {
      assert Waits(im0, im, i, c, was, now);
    }
    SameHoles(im0, im, i, e, b);
  }

  lemma ReachedThen(sb: Super, im0: Image, im: Image, im': Image, i: nat, lo: nat, e: nat, lo2: nat, b: nat,
                    was: seq<nat>, now: seq<nat>, now': seq<nat>)
    requires Reached(sb, im0, im, i, lo, e, was, now) && Reached(sb, im, im', i, lo2, b, now, now')
    requires lo <= lo2 <= e <= b && lo2 < b && e <= lo2 + 1 && (lo2 < e ==> !Hole(im, i, lo2))
    ensures Reached(sb, im0, im', i, lo, b, was, now')
  {
    hide Free, Addr, Needs;
    NeedsThrough(sb, im0, im, i, lo, e, lo2, b, was, now);
    SinceThen(was, now, now');
    forall c | b <= c < MAXFILE ensures Waits(im0, im', i, c, was, now') {
      assert Waits(im0, im, i, c, was, now) && Waits(im, im', i, c, now, now');
    }
  }

  /** A block of the file is not moved. */
  lemma SameAddr(sb: Super, im0: Image, im: Image, i: nat, lo: nat, bn: nat, c: nat, was: seq<nat>, now: seq<nat>)
    requires Inv(sb, im0, {}) && Inv(sb, im, {}) && Reached(sb, im0, im, i, lo, bn, was, now) && AddrOf(im0, i, c) != 0
    ensures AddrOf(im, i, c) == AddrOf(im0, i, c)
  {
    hide Mapped, BitsExact, Free, Needs, Waits;
    AddrOwned(sb, im0, i, c);
    assert im.own[AddrOf(im0, i, c)] == (i, DataSlot(c));
  }
}
