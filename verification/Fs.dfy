/** Blocks, inodes and file contents of kernel/fs.c as values: who owns each block, what a file holds, and
    what each elementary change to the disk does to both. Block contents are the logical ones, as seen
    through the log. */
module Fs {
  import opened Blocks

  const NDIRECT: nat := 12
  const MAXFILE: nat := NDIRECT + NINDIRECT
  const INDIRECT: nat := NDIRECT              // the slot that holds the indirect block
  const SLOTS: nat := NDIRECT + 1 + NINDIRECT // direct slots, the indirect pointer, indirect slots

  /** Layout constants of the superblock; blocks below `nmeta` hold no file data. */
  datatype Super = Super(size: nat, inodestart: nat, bmapstart: nat, nmeta: nat)

  datatype Inode = Inode(addrs: seq<nat>, size: nat)

  /** `own` is a history variable: which inode and slot a data block belongs to. */
  datatype Image = Image(blocks: seq<Block>, inodes: map<nat, Inode>, own: map<nat, (nat, nat)>)

  function BBlock(sb: Super, b: nat): nat {
    b / BPB + sb.bmapstart
  }

  ghost predicate WellFormed(sb: Super, im: Image) {
    && 0 < sb.nmeta <= sb.size && sb.size + BPB <= 0x8000_0000
    && sb.bmapstart + (sb.size + BPB - 1) / BPB <= sb.nmeta
    && |im.blocks| == sb.size
    && forall i :: i in im.inodes ==> |im.inodes[i].addrs| == NDIRECT + 1 && im.inodes[i].size <= MAXFILE * BSIZE
  }

  predicate Used(sb: Super, bl: seq<Block>, b: nat)
    requires BBlock(sb, b) < |bl|
  {
    Bit(bl[BBlock(sb, b)], b % BPB)
  }

  /** The block number in slot `k` of an inode, 0 for none. */
  function Slot(bl: seq<Block>, ip: Inode, k: nat): nat
    requires k < SLOTS && |ip.addrs| == NDIRECT + 1
  {
    if k <= INDIRECT then ip.addrs[k]
    else if ip.addrs[INDIRECT] == 0 || ip.addrs[INDIRECT] >= |bl| then 0
    else Word(bl[ip.addrs[INDIRECT]], k - INDIRECT - 1)
  }

  /** The slot of the `n`th block of a file. */
  function DataSlot(n: nat): (k: nat)
    requires n < MAXFILE
    ensures k < SLOTS && k != INDIRECT
  {
    if n < NDIRECT then n else n + 1
  }

  function Addr(bl: seq<Block>, ip: Inode, n: nat): nat
    requires n < MAXFILE && |ip.addrs| == NDIRECT + 1
  {
    Slot(bl, ip, DataSlot(n))
  }

  // ----- Ownership -----

  /** `own` says exactly which slots hold which blocks. */
  ghost predicate Owned(sb: Super, im: Image)
    requires WellFormed(sb, im)
  {
    && (forall b :: b in im.own ==>
          && sb.nmeta <= b < sb.size && im.own[b].0 in im.inodes && im.own[b].1 < SLOTS
          && Slot(im.blocks, im.inodes[im.own[b].0], im.own[b].1) == b)
    && (forall i, k :: i in im.inodes && 0 <= k < SLOTS ==> SlotOwned(im, i, k))
  }

  ghost predicate SlotOwned(im: Image, i: nat, k: nat)
    requires i in im.inodes && k < SLOTS && |im.inodes[i].addrs| == NDIRECT + 1
  {
    var a := Slot(im.blocks, im.inodes[i], k);
    a != 0 ==> a in im.own && im.own[a] == (i, k)
  }

  /** A block's bit is set exactly when the block holds no file data or is `held`. */
  ghost predicate BitsExact(sb: Super, bl: seq<Block>, held: set<nat>)
    requires forall b :: 0 <= b < sb.size ==> BBlock(sb, b) < |bl|
  {
    forall b :: 0 <= b < sb.size ==> BitExact(sb, bl, held, b)
  }

  ghost predicate BitExact(sb: Super, bl: seq<Block>, held: set<nat>, b: nat)
    requires BBlock(sb, b) < |bl|
  {
    Used(sb, bl, b) <==> b < sb.nmeta || b in held
  }

  /** Every block below a file's size is there. */
  ghost predicate Mapped(im: Image) {
    forall i, n :: i in im.inodes && 0 <= n < MAXFILE ==> BlockMapped(im, i, n)
  }

  ghost predicate BlockMapped(im: Image, i: nat, n: nat)
    requires i in im.inodes && n < MAXFILE
  {
    |im.inodes[i].addrs| == NDIRECT + 1 && (n * BSIZE < im.inodes[i].size ==> Addr(im.blocks, im.inodes[i], n) != 0)
  }

  /** The state between system calls, up to blocks `spare` that are allocated and not yet linked. */
  ghost predicate Inv(sb: Super, im: Image, spare: set<nat>) {
    && WellFormed(sb, im) && Owned(sb, im) && Mapped(im)
    && (forall b :: b in spare ==> sb.nmeta <= b < sb.size && b !in im.own)
    && BitsExact(sb, im.blocks, im.own.Keys + spare)
  }

  // ----- Contents -----

  function ByteAt(bl: seq<Block>, ip: Inode, o: nat): Byte
    requires o < MAXFILE * BSIZE && |ip.addrs| == NDIRECT + 1
  {
    var a := Addr(bl, ip, o / BSIZE);
    if 0 < a < |bl| then bl[a][o % BSIZE] else 0
  }

  /** The file as a flat sequence of bytes. */
  function Contents(im: Image, i: nat): seq<Byte>
    requires i in im.inodes && |im.inodes[i].addrs| == NDIRECT + 1 && im.inodes[i].size <= MAXFILE * BSIZE
  {
    var ip := im.inodes[i];
    seq(ip.size, o requires 0 <= o < ip.size => ByteAt(im.blocks, ip, o))
  }

  /** File `i` has lost nothing: same size, and every block it had is where it was and as it was. */
  ghost predicate Kept(im: Image, im': Image, i: nat) {
    && i in im.inodes && i in im'.inodes && im'.inodes[i].size == im.inodes[i].size
    && |im.inodes[i].addrs| == NDIRECT + 1 == |im'.inodes[i].addrs|
    && (forall n :: 0 <= n < MAXFILE ==> BlockKept(im, im', i, n))
  }

  ghost predicate BlockKept(im: Image, im': Image, i: nat, n: nat)
    requires i in im.inodes && i in im'.inodes && n < MAXFILE
    requires |im.inodes[i].addrs| == NDIRECT + 1 == |im'.inodes[i].addrs|
  {
    var a := Addr(im.blocks, im.inodes[i], n);
    a != 0 ==>
      && Addr(im'.blocks, im'.inodes[i], n) == a
      && a < |im.blocks| && a < |im'.blocks| && im'.blocks[a] == im.blocks[a]
  }

  lemma KeptTransitive(im: Image, im1: Image, im2: Image, i: nat)
    requires Kept(im, im1, i) && Kept(im1, im2, i)
    ensures Kept(im, im2, i)
  {
    forall n | 0 <= n < MAXFILE ensures BlockKept(im, im2, i, n) {
      assert BlockKept(im, im1, i, n) && BlockKept(im1, im2, i, n);
    }
  }

  lemma KeptContents(sb: Super, im: Image, im': Image, i: nat)
    requires WellFormed(sb, im) && WellFormed(sb, im') && Mapped(im) && Kept(im, im', i)
    ensures Contents(im', i) == Contents(im, i)
  {
    var ip, ip' := im.inodes[i], im'.inodes[i];
    forall o | 0 <= o < ip.size ensures ByteAt(im'.blocks, ip', o) == ByteAt(im.blocks, ip, o) {
      assert BlockMapped(im, i, o / BSIZE) && BlockKept(im, im', i, o / BSIZE);
    }
  }

  // ----- Elementary changes -----

  /** Writing block `b` keeps every slot, unless `b` is the indirect block of some inode. */
  lemma SlotsKept(sb: Super, im: Image, b: nat, v: Block)
    requires WellFormed(sb, im) && Owned(sb, im) && b < sb.size
    requires b in im.own ==> im.own[b].1 != INDIRECT
    ensures forall i, k :: i in im.inodes && 0 <= k < SLOTS ==>
              Slot(im.blocks[b := v], im.inodes[i], k) == Slot(im.blocks, im.inodes[i], k)
  {
    forall i | i in im.inodes ensures im.inodes[i].addrs[INDIRECT] != 0 ==> im.inodes[i].addrs[INDIRECT] != b {
      assert SlotOwned(im, i, INDIRECT);
    }
  }

  /** A block's address is owned by the slot it sits in. */
  lemma AddrOwned(sb: Super, im: Image, i: nat, n: nat)
    requires WellFormed(sb, im) && Owned(sb, im) && i in im.inodes && n < MAXFILE
    requires Addr(im.blocks, im.inodes[i], n) != 0
    ensures var a := Addr(im.blocks, im.inodes[i], n);
            a in im.own && im.own[a] == (i, DataSlot(n)) && sb.nmeta <= a < sb.size
  {
    assert SlotOwned(im, i, DataSlot(n));
  }

  /** Writing a block nobody owns changes no file. */
  lemma WriteUnowned(sb: Super, im: Image, b: nat, v: Block)
    requires WellFormed(sb, im) && Owned(sb, im) && Mapped(im) && b < sb.size && b !in im.own
    ensures var im' := im.(blocks := im.blocks[b := v]);
            WellFormed(sb, im') && Owned(sb, im') && Mapped(im') && forall i :: i in im.inodes ==> Kept(im, im', i)
  {
    var im' := im.(blocks := im.blocks[b := v]);
    SlotsKept(sb, im, b, v);
    forall i, k | i in im.inodes && 0 <= k < SLOTS ensures SlotOwned(im', i, k) {
      assert SlotOwned(im, i, k);
    }
    forall i, n | i in im.inodes && 0 <= n < MAXFILE ensures BlockMapped(im', i, n) && BlockKept(im, im', i, n) {
      assert BlockMapped(im, i, n);
      if Addr(im.blocks, im.inodes[i], n) != 0 {
        AddrOwned(sb, im, i, n);
      }
    }
  }

  lemma BitmapFits(sb: Super, im: Image, b: nat)
    requires WellFormed(sb, im) && b < sb.size
    ensures sb.bmapstart <= BBlock(sb, b) < sb.nmeta
  {
  }

  /** Writing a block that is not a bitmap block changes no bit. */
  lemma BitsKept(sb: Super, im: Image, held: set<nat>, b: nat, v: Block)
    requires WellFormed(sb, im) && sb.nmeta <= b < sb.size && BitsExact(sb, im.blocks, held)
    ensures BitsExact(sb, im.blocks[b := v], held)
  {
    var bl' := im.blocks[b := v];
    forall c | 0 <= c < sb.size ensures BitExact(sb, bl', held, c) {
      BitmapFits(sb, im, c);
      assert BitExact(sb, im.blocks, held, c);
    }
  }

  /** Setting a block's bit in the bitmap. */
  lemma BitTaken(sb: Super, im: Image, held: set<nat>, b: nat)
    requires WellFormed(sb, im) && sb.nmeta <= b < sb.size && BitsExact(sb, im.blocks, held)
    ensures var bb := BBlock(sb, b);
            bb < sb.nmeta && BitsExact(sb, im.blocks[bb := Marked(im.blocks[bb], b % BPB)], held + {b})
  {
    var bb := BBlock(sb, b);
    var bl', held' := im.blocks[bb := Marked(im.blocks[bb], b % BPB)], held + {b};
    forall c | 0 <= c < sb.size ensures BitExact(sb, bl', held', c) {
      BitmapFits(sb, im, c);
      assert BitExact(sb, im.blocks, held, c);
      BitMarked(im.blocks[bb], b % BPB, c % BPB);
    }
  }

  /** Clearing a block's bit in the bitmap. */
  lemma BitFreed(sb: Super, im: Image, held: set<nat>, b: nat)
    requires WellFormed(sb, im) && sb.nmeta <= b < sb.size && BitsExact(sb, im.blocks, held)
    ensures var bb := BBlock(sb, b);
            bb < sb.nmeta && BitsExact(sb, im.blocks[bb := Unmarked(im.blocks[bb], b % BPB)], held - {b})
  {
    var bb := BBlock(sb, b);
    var bl', held' := im.blocks[bb := Unmarked(im.blocks[bb], b % BPB)], held - {b};
    forall c | 0 <= c < sb.size ensures BitExact(sb, bl', held', c) {
      BitmapFits(sb, im, c);
      assert BitExact(sb, im.blocks, held, c);
      BitMarked(im.blocks[bb], b % BPB, c % BPB);
    }
  }

  /** The disk after `balloc` hands out block `b`. */
  function Taken(sb: Super, im: Image, b: nat): Image
    requires b < |im.blocks| && BBlock(sb, b) < |im.blocks|
  {
    var bb := BBlock(sb, b);
    im.(blocks := im.blocks[bb := Marked(im.blocks[bb], b % BPB)][b := Zero()])
  }

  /** A clear bit is a free block: taking it disturbs no file. */
  lemma TakenKeepsInv(sb: Super, im: Image, spare: set<nat>, b: nat)
    requires Inv(sb, im, spare) && b < sb.size && !Used(sb, im.blocks, b)
    ensures sb.nmeta <= b && b !in im.own && b !in spare
    ensures Inv(sb, Taken(sb, im, b), spare + {b}) && Taken(sb, im, b).blocks[b] == Zero()
    ensures forall i :: i in im.inodes ==> Kept(im, Taken(sb, im, b), i)
  {
    assert BitExact(sb, im.blocks, im.own.Keys + spare, b);
    var bb := BBlock(sb, b);
    BitmapFits(sb, im, b);
    var im1 := im.(blocks := im.blocks[bb := Marked(im.blocks[bb], b % BPB)]);
    BitTaken(sb, im, im.own.Keys + spare, b);
    WriteUnowned(sb, im, bb, im1.blocks[bb]);
    assert im.own.Keys + spare + {b} == im.own.Keys + (spare + {b});
    BitsKept(sb, im1, im.own.Keys + (spare + {b}), b, Zero());
    WriteUnowned(sb, im1, b, Zero());
    forall i | i in im.inodes ensures Kept(im, Taken(sb, im, b), i) {
      KeptTransitive(im, im1, Taken(sb, im, b), i);
    }
  }

  /** Block `b` in slot `k` (direct, or the indirect pointer) of inode `i`. */
  function LinkedDirect(im: Image, i: nat, k: nat, b: nat): Image
    requires i in im.inodes && k < |im.inodes[i].addrs|
  {
    var ip := im.inodes[i];
    im.(inodes := im.inodes[i := ip.(addrs := ip.addrs[k := b])], own := im.own[b := (i, k)])
  }

  lemma ZeroWord(k: nat)
    requires k < NINDIRECT
    ensures Word(Zero(), k) == 0
  {
  }

  lemma LinkDirectSlots(sb: Super, im: Image, i: nat, k: nat, b: nat)
    requires WellFormed(sb, im) && i in im.inodes && k <= INDIRECT && b < sb.size
    requires im.inodes[i].addrs[k] == 0 && im.blocks[b] == Zero()
    ensures var im' := LinkedDirect(im, i, k, b); forall j, m :: j in im.inodes && 0 <= m < SLOTS ==>
              Slot(im'.blocks, im'.inodes[j], m) == if j == i && m == k then b else Slot(im.blocks, im.inodes[j], m)
  {
    forall m | 0 <= m < NINDIRECT ensures Word(Zero(), m) == 0 {
      ZeroWord(m);
    }
  }

  /** Once every slot but one is the same and that one went from nothing to `b`, the invariant holds again. */
  lemma LinkKeepsInv(sb: Super, im: Image, im': Image, spare: set<nat>, i: nat, k: nat, b: nat)
    requires Inv(sb, im, spare) && b in spare && i in im.inodes && k < SLOTS && Slot(im.blocks, im.inodes[i], k) == 0
    requires WellFormed(sb, im') && im'.own == im.own[b := (i, k)] && im'.inodes.Keys == im.inodes.Keys
    requires forall j :: j in im.inodes ==> im'.inodes[j].size == im.inodes[j].size
    requires forall j, m :: j in im.inodes && 0 <= m < SLOTS ==>
               Slot(im'.blocks, im'.inodes[j], m) == if j == i && m == k then b else Slot(im.blocks, im.inodes[j], m)
    requires BitsExact(sb, im'.blocks, im.own.Keys + spare)
    requires forall c :: c in im.own && im.own[c].1 != INDIRECT ==> im'.blocks[c] == im.blocks[c]
    ensures Inv(sb, im', spare - {b})
    ensures forall j :: j in im.inodes ==> Kept(im, im', j)
  {
    forall j, m | j in im'.inodes && 0 <= m < SLOTS ensures SlotOwned(im', j, m) {
      assert SlotOwned(im, j, m);
    }
    assert im'.own.Keys + (spare - {b}) == im.own.Keys + spare;
    forall j, n | j in im.inodes && 0 <= n < MAXFILE ensures BlockMapped(im', j, n) && BlockKept(im, im', j, n) {
      assert BlockMapped(im, j, n) && SlotOwned(im, j, DataSlot(n));
    }
  }

  lemma LinkDirectKeepsInv(sb: Super, im: Image, spare: set<nat>, i: nat, k: nat, b: nat)
    requires Inv(sb, im, spare) && b in spare && i in im.inodes && k <= INDIRECT
    requires im.inodes[i].addrs[k] == 0 && im.blocks[b] == Zero()
    ensures Inv(sb, LinkedDirect(im, i, k, b), spare - {b})
    ensures forall j :: j in im.inodes ==> Kept(im, LinkedDirect(im, i, k, b), j)
  {
    LinkDirectSlots(sb, im, i, k, b);
    LinkKeepsInv(sb, im, LinkedDirect(im, i, k, b), spare, i, k, b);
  }

  /** Block `b` in word `w` of the indirect block of inode `i`. */
  function LinkedIndirect(im: Image, i: nat, w: nat, b: nat): Image
    requires i in im.inodes && |im.inodes[i].addrs| == NDIRECT + 1 && im.inodes[i].addrs[INDIRECT] < |im.blocks|
    requires w < NINDIRECT && b < 0x1_0000_0000
  {
    var a := im.inodes[i].addrs[INDIRECT];
    im.(blocks := im.blocks[a := SetWord(im.blocks[a], w, b)], own := im.own[b := (i, INDIRECT + 1 + w)])
  }

  lemma LinkIndirectSlots(sb: Super, im: Image, i: nat, w: nat, b: nat)
    requires WellFormed(sb, im) && Owned(sb, im) && i in im.inodes && w < NINDIRECT && b < sb.size
    requires 0 != im.inodes[i].addrs[INDIRECT] < sb.size
    ensures var im' := LinkedIndirect(im, i, w, b); forall j, m :: j in im.inodes && 0 <= m < SLOTS ==>
              Slot(im'.blocks, im'.inodes[j], m) == if j == i && m == INDIRECT + 1 + w then b
                  else Slot(im.blocks, im.inodes[j], m)
  {
    var a := im.inodes[i].addrs[INDIRECT];
    assert SlotOwned(im, i, INDIRECT);
    forall m | 0 <= m < NINDIRECT
      ensures Word(SetWord(im.blocks[a], w, b), m) == if m == w then b else Word(im.blocks[a], m)
    {
      WordSet(im.blocks[a], w, b, m);
    }
    forall j | j in im.inodes && j != i ensures im.inodes[j].addrs[INDIRECT] != a {
      assert SlotOwned(im, j, INDIRECT);
    }
  }

  lemma LinkIndirectKeepsInv(sb: Super, im: Image, spare: set<nat>, i: nat, w: nat, b: nat)
    requires Inv(sb, im, spare) && b in spare && i in im.inodes && w < NINDIRECT
    requires im.inodes[i].addrs[INDIRECT] != 0 && Slot(im.blocks, im.inodes[i], INDIRECT + 1 + w) == 0
    ensures sb.nmeta <= im.inodes[i].addrs[INDIRECT] < sb.size
    ensures Inv(sb, LinkedIndirect(im, i, w, b), spare - {b})
    ensures forall j :: j in im.inodes ==> Kept(im, LinkedIndirect(im, i, w, b), j)
  {
    var a := im.inodes[i].addrs[INDIRECT];
    assert SlotOwned(im, i, INDIRECT);
    LinkIndirectSlots(sb, im, i, w, b);
    BitsKept(sb, im, im.own.Keys + spare, a, SetWord(im.blocks[a], w, b));
    LinkKeepsInv(sb, im, LinkedIndirect(im, i, w, b), spare, i, INDIRECT + 1 + w, b);
  }

  /** Writing data block `n` of file `i` changes those bytes of that file and nothing else. */
  lemma WriteData(sb: Super, im: Image, i: nat, n: nat, v: Block)
    requires Inv(sb, im, {}) && i in im.inodes && n < MAXFILE && Addr(im.blocks, im.inodes[i], n) != 0
    ensures var a := Addr(im.blocks, im.inodes[i], n);
            && sb.nmeta <= a < sb.size
            && var im' := im.(blocks := im.blocks[a := v]);
            && Inv(sb, im', {})
            && (forall j :: j in im.inodes && j != i ==> Kept(im, im', j))
            && (forall m :: 0 <= m < MAXFILE ==> Addr(im'.blocks, im.inodes[i], m) == Addr(im.blocks, im.inodes[i], m))
            && (forall o :: 0 <= o < MAXFILE * BSIZE ==>
                  ByteAt(im'.blocks, im.inodes[i], o) == if o / BSIZE == n then v[o % BSIZE]
                      else ByteAt(im.blocks, im.inodes[i], o))
  {
    var a := Addr(im.blocks, im.inodes[i], n);
    AddrOwned(sb, im, i, n);
    var im' := im.(blocks := im.blocks[a := v]);
    SlotsKept(sb, im, a, v);
    BitsKept(sb, im, im.own.Keys + {}, a, v);
    forall j, k | j in im.inodes && 0 <= k < SLOTS ensures SlotOwned(im', j, k) {
      assert SlotOwned(im, j, k);
    }
    forall j, m | j in im.inodes && 0 <= m < MAXFILE
      ensures BlockMapped(im', j, m) && (j != i ==> BlockKept(im, im', j, m))
    {
      assert BlockMapped(im, j, m) && SlotOwned(im, j, DataSlot(m));
    }
    forall o | 0 <= o < MAXFILE * BSIZE
      ensures ByteAt(im'.blocks, im.inodes[i], o) == if o / BSIZE == n then v[o % BSIZE]
              else ByteAt(im.blocks, im.inodes[i], o)
    {
      assert SlotOwned(im, i, DataSlot(o / BSIZE));
    }
  }

  // ----- Allocating into a slot -----

  /** Every file is kept, and no inode but `i` changes. */
  ghost predicate Preserved(im: Image, im': Image, i: nat) {
    && im'.inodes.Keys == im.inodes.Keys
    && (forall j :: j in im.inodes ==> Kept(im, im', j) && (j != i ==> im'.inodes[j] == im.inodes[j]))
    && (forall b :: b in im.own ==> b in im'.own && im'.own[b] == im.own[b])
  }

  lemma PreservedTransitive(im: Image, im1: Image, im2: Image, i: nat)
    requires Preserved(im, im1, i) && Preserved(im1, im2, i)
    ensures Preserved(im, im2, i)
  {
    forall j | j in im.inodes ensures Kept(im, im2, j) {
      KeptTransitive(im, im1, im2, j);
    }
  }

  /** Fresh zeroed block `b` went into slot `k` of inode `i`. */
  ghost predicate Gave(sb: Super, im: Image, im': Image, i: nat, k: nat, b: nat) {
    && Inv(sb, im', {}) && Preserved(im, im', i)
    && sb.nmeta <= b < sb.size && b !in im.own && im'.own == im.own[b := (i, k)]
    && i in im.inodes && k < SLOTS && Slot(im'.blocks, im'.inodes[i], k) == b && im'.blocks[b] == Zero()
    && (k != INDIRECT ==> im'.inodes[i].addrs[INDIRECT] == im.inodes[i].addrs[INDIRECT])
    && (forall m :: 0 <= m < SLOTS && m != k ==> Slot(im'.blocks, im'.inodes[i], m) == Slot(im.blocks, im.inodes[i], m))
  }

  lemma KeptThrough(im: Image, im1: Image, im2: Image)
    requires forall j :: j in im.inodes ==> Kept(im, im1, j) && Kept(im1, im2, j)
    ensures forall j :: j in im.inodes ==> Kept(im, im2, j)
  {
    forall j | j in im.inodes ensures Kept(im, im2, j) {
      KeptTransitive(im, im1, im2, j);
    }
  }

  lemma TakenSlots(sb: Super, im: Image, b: nat)
    requires Inv(sb, im, {}) && b < sb.size && !Used(sb, im.blocks, b)
    ensures var im1 := Taken(sb, im, b); forall j, m :: j in im.inodes && 0 <= m < SLOTS ==>
              Slot(im1.blocks, im1.inodes[j], m) == Slot(im.blocks, im.inodes[j], m)
  {
    TakenKeepsInv(sb, im, {}, b);
    BitmapFits(sb, im, b);
    var bb := BBlock(sb, b);
    var im1 := im.(blocks := im.blocks[bb := Marked(im.blocks[bb], b % BPB)]);
    SlotsKept(sb, im, bb, im1.blocks[bb]);
    WriteUnowned(sb, im, bb, im1.blocks[bb]);
    SlotsKept(sb, im1, b, Zero());
  }

  lemma GaveDirect(sb: Super, im: Image, i: nat, k: nat, b: nat)
    requires Inv(sb, im, {}) && i in im.inodes && k <= INDIRECT && im.inodes[i].addrs[k] == 0
    requires b < sb.size && !Used(sb, im.blocks, b)
    ensures Gave(sb, im, LinkedDirect(Taken(sb, im, b), i, k, b), i, k, b)
  {
    hide Used, Taken, Kept, Owned, Mapped, BitsExact;
    var im1 := Taken(sb, im, b);
    assert im1 == im.(blocks := im1.blocks) by { TakenOnlyBlocks(sb, im, b); }
    TakenKeepsInv(sb, im, {}, b);
    assert {} + {b} == {b} && {b} - {b} == {};
    TakenSlots(sb, im, b);
    LinkDirectSlots(sb, im1, i, k, b);
    LinkDirectKeepsInv(sb, im1, {b}, i, k, b);
    KeptThrough(im, im1, LinkedDirect(im1, i, k, b));
  }

  lemma TakenOnlyBlocks(sb: Super, im: Image, b: nat)
    requires b < |im.blocks| && BBlock(sb, b) < |im.blocks|
    ensures Taken(sb, im, b) == im.(blocks := Taken(sb, im, b).blocks)
  {
  }

  lemma IndirectOwned(sb: Super, im: Image, i: nat)
    requires WellFormed(sb, im) && Owned(sb, im) && i in im.inodes && im.inodes[i].addrs[INDIRECT] != 0
    ensures var a := im.inodes[i].addrs[INDIRECT]; a in im.own && sb.nmeta <= a < sb.size && im.own[a] == (i, INDIRECT)
  {
    assert SlotOwned(im, i, INDIRECT);
  }

  lemma GaveIndirect(sb: Super, im: Image, i: nat, w: nat, b: nat)
    requires Inv(sb, im, {}) && i in im.inodes && w < NINDIRECT && im.inodes[i].addrs[INDIRECT] != 0
    requires Slot(im.blocks, im.inodes[i], INDIRECT + 1 + w) == 0
    requires b < sb.size && !Used(sb, im.blocks, b)
    ensures im.inodes[i].addrs[INDIRECT] < sb.size
    ensures Gave(sb, im, LinkedIndirect(Taken(sb, im, b), i, w, b), i, INDIRECT + 1 + w, b)
  {
    hide Used, Taken, Kept, Owned, Mapped, BitsExact, Slot, SetWord, Word;
    var im1 := Taken(sb, im, b);
    assert im1 == im.(blocks := im1.blocks) by { TakenOnlyBlocks(sb, im, b); }
    TakenKeepsInv(sb, im, {}, b);
    assert {} + {b} == {b} && {b} - {b} == {};
    IndirectOwned(sb, im, i);
    TakenSlots(sb, im, b);
    LinkIndirectKeepsInv(sb, im1, {b}, i, w, b);
    LinkIndirectSlots(sb, im1, i, w, b);
    KeptThrough(im, im1, LinkedIndirect(im1, i, w, b));
  }

  /** What `bmap` promises: the result is the block's address (0 for none), files are kept, a block that was
      there needed no change, a new one is zero, and only this block and the indirect one are new. */
  ghost predicate MapsTo(sb: Super, im: Image, im': Image, i: nat, bn: nat, addr: nat)
    requires bn < MAXFILE
  {
    && Inv(sb, im', {}) && Preserved(im, im', i) && i in im.inodes && |im.inodes[i].addrs| == NDIRECT + 1
    && (addr != 0 ==> sb.nmeta <= addr < sb.size && addr == Addr(im'.blocks, im'.inodes[i], bn))
    && (Addr(im.blocks, im.inodes[i], bn) != 0 ==> im' == im && addr != 0)
    && (Addr(im.blocks, im.inodes[i], bn) == 0 && addr != 0 ==> im'.blocks[addr] == Zero())
    && (forall b :: b in im'.own ==>
          || (b in im.own && im'.own[b] == im.own[b])
          || (im'.own[b] == (i, INDIRECT) && NDIRECT <= bn) || im'.own[b] == (i, DataSlot(bn)))
  }

  lemma MapsFacts(sb: Super, im: Image, im': Image, i: nat, bn: nat, addr: nat)
    requires bn < MAXFILE && MapsTo(sb, im, im', i, bn, addr)
    ensures i in im.inodes && |im.inodes[i].addrs| == NDIRECT + 1 && i in im'.inodes
            && |im'.inodes[i].addrs| == NDIRECT + 1
    ensures addr != 0 ==> sb.nmeta <= addr < sb.size == |im'.blocks| && addr == Addr(im'.blocks, im'.inodes[i], bn)
    ensures Addr(im.blocks, im.inodes[i], bn) != 0 ==> im' == im && addr != 0
  {
  }

  lemma MapsSize(sb: Super, im: Image, im': Image, i: nat, bn: nat, addr: nat)
    requires bn < MAXFILE && MapsTo(sb, im, im', i, bn, addr)
    ensures i in im.inodes && i in im'.inodes && im'.inodes[i].size == im.inodes[i].size
  {
  }

  lemma NothingChanged(sb: Super, im: Image, i: nat)
    requires Inv(sb, im, {})
    ensures Preserved(im, im, i)
  {
    forall j, n | j in im.inodes && 0 <= n < MAXFILE ensures BlockKept(im, im, j, n) {
      if Addr(im.blocks, im.inodes[j], n) != 0 {
        AddrOwned(sb, im, j, n);
      }
    }
  }

  lemma MapsFound(sb: Super, im: Image, i: nat, bn: nat, addr: nat)
    requires Inv(sb, im, {}) && i in im.inodes && bn < MAXFILE && addr == Addr(im.blocks, im.inodes[i], bn)
    ensures MapsTo(sb, im, im, i, bn, addr)
  {
    NothingChanged(sb, im, i);
    if addr != 0 {
      AddrOwned(sb, im, i, bn);
    }
  }

  lemma MapsGiven(sb: Super, im: Image, im': Image, i: nat, bn: nat, addr: nat)
    requires Inv(sb, im, {}) && i in im.inodes && bn < MAXFILE && Addr(im.blocks, im.inodes[i], bn) == 0
    requires Gave(sb, im, im', i, DataSlot(bn), addr)
    ensures MapsTo(sb, im, im', i, bn, addr)
  {
    hide Owned, Mapped, BitsExact, Kept;
  }

  /** The indirect block is new; then `bmap` goes on as on any other disk. */
  lemma MapsThrough(sb: Super, im: Image, im1: Image, im2: Image, i: nat, bn: nat, ind: nat, addr: nat)
    requires Inv(sb, im, {}) && i in im.inodes && NDIRECT <= bn < MAXFILE && im.inodes[i].addrs[INDIRECT] == 0
    requires Gave(sb, im, im1, i, INDIRECT, ind) && MapsTo(sb, im1, im2, i, bn, addr)
    ensures MapsTo(sb, im, im2, i, bn, addr)
            && Addr(im.blocks, im.inodes[i], bn) == 0 == Addr(im1.blocks, im1.inodes[i], bn)
  {
    hide Owned, Mapped, BitsExact, Kept;
    assert Slot(im1.blocks, im1.inodes[i], bn + 1) == Slot(im.blocks, im.inodes[i], bn + 1);
    PreservedTransitive(im, im1, im2, i);
  }

  // ----- Writing a range -----

  /** No file but `i` is touched. */
  ghost predicate OthersKept(im: Image, im': Image, i: nat) {
    && im'.inodes.Keys == im.inodes.Keys
    && (forall j :: j in im.inodes && j != i ==> Kept(im, im', j) && im'.inodes[j] == im.inodes[j])
  }

  /** Every other file reads as before. */
  lemma OthersRead(sb: Super, im: Image, im': Image, i: nat)
    requires Inv(sb, im, {}) && Inv(sb, im', {}) && OthersKept(im, im', i)
    ensures forall j :: j in im.inodes && j != i ==> j in im'.inodes && Contents(im', j) == Contents(im, j)
  {
    hide Contents, Kept;
    forall j | j in im.inodes && j != i ensures Contents(im', j) == Contents(im, j) {
      KeptContents(sb, im, im', j);
    }
  }

  lemma OthersKeptTransitive(im: Image, im1: Image, im2: Image, i: nat)
    requires OthersKept(im, im1, i) && OthersKept(im1, im2, i)
    ensures OthersKept(im, im2, i)
  {
    forall j | j in im.inodes && j != i ensures Kept(im, im2, j) {
      KeptTransitive(im, im1, im2, j);
    }
  }

  function Spliced(b: Block, at: nat, bs: seq<Byte>): Block
    requires at + |bs| <= BSIZE
  {
    b[..at] + bs + b[at + |bs|..]
  }

  /** File `i` holds `src[..put]` from `off` on, and its old bytes elsewhere. */
  ghost predicate Written(im: Image, im': Image, i: nat, off: nat, src: seq<Byte>, put: nat)
    requires put <= |src|
  {
    && i in im.inodes && i in im'.inodes && im'.inodes[i].size == im.inodes[i].size
    && |im.inodes[i].addrs| == NDIRECT + 1 == |im'.inodes[i].addrs|
    && (forall o :: 0 <= o < MAXFILE * BSIZE ==> ByteWritten(im, im', i, off, src, put, o))
  }

  ghost predicate ByteWritten(im: Image, im': Image, i: nat, off: nat, src: seq<Byte>, put: nat, o: nat)
    requires put <= |src| && o < MAXFILE * BSIZE && i in im.inodes && i in im'.inodes
    requires |im.inodes[i].addrs| == NDIRECT + 1 == |im'.inodes[i].addrs|
  {
    if off <= o < off + put then
      Addr(im'.blocks, im'.inodes[i], o / BSIZE) != 0 && ByteAt(im'.blocks, im'.inodes[i], o) == src[o - off]
    else
      o < im.inodes[i].size ==> ByteAt(im'.blocks, im'.inodes[i], o) == ByteAt(im.blocks, im.inodes[i], o)
  }

  lemma WrittenKept(im: Image, im1: Image, im2: Image, i: nat, off: nat, src: seq<Byte>, put: nat)
    requires put <= |src| && Written(im, im1, i, off, src, put) && Mapped(im1) && Kept(im1, im2, i)
    ensures Written(im, im2, i, off, src, put)
  {
    forall o | 0 <= o < MAXFILE * BSIZE ensures ByteWritten(im, im2, i, off, src, put, o) {
      assert ByteWritten(im, im1, i, off, src, put, o) && BlockKept(im1, im2, i, o / BSIZE)
             && BlockMapped(im1, i, o / BSIZE);
    }
  }

  lemma WrittenMore(sb: Super, im: Image, im1: Image, i: nat, off: nat, src: seq<Byte>, put: nat, m: nat)
    requires put + m <= |src| && Written(im, im1, i, off, src, put) && Inv(sb, im1, {})
    requires (off + put) % BSIZE + m <= BSIZE && (off + put) / BSIZE < MAXFILE
    requires Addr(im1.blocks, im1.inodes[i], (off + put) / BSIZE) != 0
    ensures var a := Addr(im1.blocks, im1.inodes[i], (off + put) / BSIZE);
            && sb.nmeta <= a < sb.size
            && var im2 := im1.(blocks := im1.blocks[a := Spliced(im1.blocks[a], (off + put) % BSIZE,
                src[put..put + m])]);
               Inv(sb, im2, {}) && Written(im, im2, i, off, src, put + m) && OthersKept(im1, im2, i)
  {
    hide Owned, Mapped, BitsExact, BitExact, Kept, ByteAt;
    var n, at := (off + put) / BSIZE, (off + put) % BSIZE;
    var a := Addr(im1.blocks, im1.inodes[i], n);
    AddrOwned(sb, im1, i, n);
    var v := Spliced(im1.blocks[a], at, src[put..put + m]);
    WriteData(sb, im1, i, n, v);
    var im2 := im1.(blocks := im1.blocks[a := v]);
    var put' := put + m;
    forall o | 0 <= o < MAXFILE * BSIZE ensures ByteWritten(im, im2, i, off, src, put', o) {
      assert ByteWritten(im, im1, i, off, src, put, o);
      BytesOfBlock(im1, i, n, o, a);
    }
  }

  lemma BytesOfBlock(im: Image, i: nat, n: nat, o: nat, a: nat)
    requires o < MAXFILE * BSIZE && n < MAXFILE && i in im.inodes && |im.inodes[i].addrs| == NDIRECT + 1
    requires 0 < a < |im.blocks| && a == Addr(im.blocks, im.inodes[i], n)
    ensures o / BSIZE == n ==>
              ByteAt(im.blocks, im.inodes[i], o) == im.blocks[a][o % BSIZE] && o == n * BSIZE + o % BSIZE
  {
  }

  lemma WrittenNothing(im: Image, i: nat, off: nat, src: seq<Byte>)
    requires i in im.inodes && |im.inodes[i].addrs| == NDIRECT + 1
    ensures Written(im, im, i, off, src, 0)
  {
    forall o | 0 <= o < MAXFILE * BSIZE ensures ByteWritten(im, im, i, off, src, 0, o) {
    }
  }

  lemma WrittenMapped(sb: Super, im: Image, im1: Image, im2: Image, i: nat, off: nat, src: seq<Byte>, put: nat,
                      bn: nat, addr: nat)
    requires put <= |src| && Written(im, im1, i, off, src, put) && OthersKept(im, im1, i) && Inv(sb, im1, {})
    requires bn < MAXFILE && MapsTo(sb, im1, im2, i, bn, addr)
    ensures Written(im, im2, i, off, src, put) && OthersKept(im, im2, i)
  {
    hide Owned, Mapped, BitsExact, BitExact, Kept, Written;
    OthersKeptTransitive(im, im1, im2, i);
    WrittenKept(im, im1, im2, i, off, src, put);
  }

  /** The bytes of `c` with `bs` laid over them at `off`. */
  function Overlaid(c: seq<Byte>, off: nat, bs: seq<Byte>): seq<Byte>
    requires off <= |c|
  {
    c[..off] + bs + (if off + |bs| <= |c| then c[off + |bs|..] else [])
  }

  function Max(a: int, b: int): int {
    if a < b then b else a
  }

  function Resized(im: Image, i: nat, size: nat): Image
    requires i in im.inodes
  {
    im.(inodes := im.inodes[i := im.inodes[i].(size := size)])
  }

  lemma ResizedKeepsInv(sb: Super, im: Image, i: nat, size: nat)
    requires Inv(sb, im, {}) && i in im.inodes && size <= MAXFILE * BSIZE
    requires forall n :: 0 <= n < MAXFILE && n * BSIZE < size ==> Addr(im.blocks, im.inodes[i], n) != 0
    ensures Inv(sb, Resized(im, i, size), {}) && OthersKept(im, Resized(im, i, size), i)
  {
    var im' := Resized(im, i, size);
    assert forall j, k :: j in im.inodes && 0 <= k < SLOTS ==>
        Slot(im'.blocks, im'.inodes[j], k) == Slot(im.blocks, im.inodes[j], k);
    forall j, k | j in im.inodes && 0 <= k < SLOTS ensures SlotOwned(im', j, k) {
      assert SlotOwned(im, j, k);
    }
    forall j, n | j in im.inodes && 0 <= n < MAXFILE ensures BlockMapped(im', j, n) {
      assert BlockMapped(im, j, n);
      assert Addr(im'.blocks, im'.inodes[j], n) == Addr(im.blocks, im.inodes[j], n);
    }
    NothingChanged(sb, im, i);
    forall j, n | j in im.inodes && j != i && 0 <= n < MAXFILE ensures BlockKept(im, im', j, n) {
      assert BlockKept(im, im, j, n);
    }
  }

  /** The file after a write that put `src[..put]` down and reported `tot` bytes. */
  lemma WrittenContents(sb: Super, im: Image, im1: Image, i: nat, off: nat, src: seq<Byte>, tot: nat, put: nat)
    requires Inv(sb, im, {}) && Inv(sb, im1, {}) && tot <= put <= |src| && Written(im, im1, i, off, src, put)
    requires off <= im.inodes[i].size && off + tot <= MAXFILE * BSIZE
    ensures var size := Max(im.inodes[i].size, off + tot);
            && Inv(sb, Resized(im1, i, size), {}) && OthersKept(im1, Resized(im1, i, size), i)
            && Contents(Resized(im1, i, size), i) == Overlaid(Contents(im, i), off, src[..put])[..size]
  {
    var ip := im1.inodes[i];
    var size := Max(im.inodes[i].size, off + tot);
    forall n | 0 <= n < MAXFILE && n * BSIZE < size ensures Addr(im1.blocks, ip, n) != 0 {
      assert BlockMapped(im1, i, n);
      assert ByteWritten(im, im1, i, off, src, put, n * BSIZE);
    }
    ResizedKeepsInv(sb, im1, i, size);
    var ip', want := ip.(size := size), Overlaid(Contents(im, i), off, src[..put]);
    forall o | 0 <= o < size ensures ByteAt(im1.blocks, ip', o) == want[o] {
      assert ByteWritten(im, im1, i, off, src, put, o);
      assert Addr(im1.blocks, ip', o / BSIZE) == Addr(im1.blocks, ip, o / BSIZE);
    }
  }

  lemma OverlaidTwice(c: seq<Byte>, off: nat, a: seq<Byte>, b: seq<Byte>)
    requires off <= |c|
    ensures |Overlaid(c, off, a)| == Max(|c|, off + |a|)
    ensures Overlaid(Overlaid(c, off, a), off + |a|, b) == Overlaid(c, off, a + b)
  {
  }

  // ----- Truncation -----

  /** `itrunc` frees the direct slots, then the indirect ones, then the indirect block. */
  function Turn(k: nat): nat {
    if k < NDIRECT then k else if k == INDIRECT then MAXFILE else k - 1
  }

  /** The blocks of inode `i` whose turn comes before `t`. */
  ghost function Freed(own: map<nat, (nat, nat)>, i: nat, t: nat): set<nat> {
    set b | b in own && own[b].0 == i && Turn(own[b].1) < t
  }

  /** Slot `k` holds the one block that is freed at its turn. */
  lemma FreedNext(sb: Super, im: Image, i: nat, k: nat)
    requires WellFormed(sb, im) && Owned(sb, im) && i in im.inodes && k < SLOTS
    ensures var a := Slot(im.blocks, im.inodes[i], k);
            && Freed(im.own, i, Turn(k) + 1) == (if a == 0 then Freed(im.own, i, Turn(k))
                else Freed(im.own, i, Turn(k)) + {a})
            && (a != 0 ==> sb.nmeta <= a < sb.size && a in im.own && im.own[a] == (i, k))
  {
    assert SlotOwned(im, i, k);
    forall b | b in im.own && im.own[b].0 == i && Turn(im.own[b].1) == Turn(k) ensures im.own[b].1 == k {
    }
  }

  /** Midway through freeing inode `i`: the bits of those blocks are clear, all else is as in `im`. */
  ghost predicate Freeing(sb: Super, im: Image, bl: seq<Block>, i: nat, t: nat) {
    && WellFormed(sb, im) && |bl| == sb.size && (forall c :: sb.nmeta <= c < sb.size ==> bl[c] == im.blocks[c])
    && BitsExact(sb, bl, im.own.Keys - Freed(im.own, i, t))
  }

  function Zeroed(a: seq<nat>, k: nat): seq<nat> {
    seq(|a|, x requires 0 <= x < |a| => if x < k then 0 else a[x])
  }

  ghost function Dropped(own: map<nat, (nat, nat)>, i: nat): map<nat, (nat, nat)> {
    map b | b in own && own[b].0 != i :: own[b]
  }

  function Empty(): Inode {
    Inode(seq(NDIRECT + 1, _ => 0), 0)
  }

  /** Once all bits of inode `i` are cleared, dropping its slots gives a consistent disk. */
  lemma TruncatedKeepsInv(sb: Super, im: Image, bl: seq<Block>, i: nat)
    requires Inv(sb, im, {}) && i in im.inodes && Freeing(sb, im, bl, i, SLOTS)
    ensures var im' := Image(bl, im.inodes[i := Empty()], Dropped(im.own, i));
            Inv(sb, im', {}) && OthersKept(im, im', i)
  {
    var im' := Image(bl, im.inodes[i := Empty()], Dropped(im.own, i));
    assert im'.own.Keys + {} == im.own.Keys - Freed(im.own, i, SLOTS);
    TruncatedSlots(sb, im, bl, i);
    forall j, k | j in im'.inodes && 0 <= k < SLOTS ensures SlotOwned(im', j, k) {
      assert SlotOwned(im, j, k);
    }
    forall j, n | j in im'.inodes && 0 <= n < MAXFILE
      ensures BlockMapped(im', j, n) && (j != i ==> BlockKept(im, im', j, n))
    {
      assert BlockMapped(im, j, n) && SlotOwned(im, j, DataSlot(n));
    }
  }

  lemma TruncatedSlots(sb: Super, im: Image, bl: seq<Block>, i: nat)
    requires WellFormed(sb, im) && Owned(sb, im) && i in im.inodes && |bl| == sb.size
    requires forall c :: sb.nmeta <= c < sb.size ==> bl[c] == im.blocks[c]
    ensures forall j, k :: j in im.inodes && 0 <= k < SLOTS ==>
              Slot(bl, im.inodes[i := Empty()][j], k) == if j == i then 0 else Slot(im.blocks, im.inodes[j], k)
  {
    forall j | j in im.inodes ensures SlotOwned(im, j, INDIRECT) {
    }
  }

  /** Without an indirect block there is nothing after the direct slots. */
  lemma NoIndirect(sb: Super, im: Image, i: nat, bl: seq<Block>)
    requires WellFormed(sb, im) && Owned(sb, im) && i in im.inodes && im.inodes[i].addrs[INDIRECT] == 0
    requires Freeing(sb, im, bl, i, NDIRECT)
    ensures Freeing(sb, im, bl, i, SLOTS)
  {
    assert Freed(im.own, i, SLOTS) == Freed(im.own, i, NDIRECT);
  }

  lemma TruncatedBit(sb: Super, im: Image, bl: seq<Block>, i: nat, b: nat)
    requires Inv(sb, im, {}) && Freeing(sb, im, bl, i, SLOTS) && b < sb.size
    ensures Used(sb, bl, b) <==> Used(sb, im.blocks, b) && !(b in im.own && im.own[b].0 == i)
  {
    assert BitExact(sb, im.blocks, im.own.Keys + {}, b);
    assert BitExact(sb, bl, im.own.Keys - Freed(im.own, i, SLOTS), b);
  }
}
