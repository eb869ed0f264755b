/** Bytes, 32-bit words and bits inside a disk block, as kernel/fs.c reads and writes them. */
module Blocks {
  const BSIZE: nat := 1024
  const BPB: nat := 8192      // bits per bitmap block
  const NINDIRECT: nat := 256 // words per indirect block

  type Byte = x: int | 0 <= x < 256

  type Block = b: seq<Byte> | |b| == BSIZE witness Zero()

  function Zero(): (b: seq<Byte>)
    ensures |b| == BSIZE && forall i :: 0 <= i < BSIZE ==> b[i] == 0
  {
    seq(BSIZE, _ => 0)
  }

  // ----- Little-endian words -----

  function Join(b0: int, b1: int, b2: int, b3: int): int {
    b0 + 256 * (b1 + 256 * (b2 + 256 * b3))
  }

  function Word(b: Block, k: nat): (w: nat)
    requires k < NINDIRECT
  {
    Join(b[4 * k], b[4 * k + 1], b[4 * k + 2], b[4 * k + 3])
  }

  function SetWord(b: Block, k: nat, w: nat): Block
    requires k < NINDIRECT && w < 0x1_0000_0000
  {
    b[4 * k := w % 256][4 * k + 1 := w / 256 % 256][4 * k + 2 := w / 256 / 256 % 256]
     [4 * k + 3 := w / 256 / 256 / 256]
  }

  lemma JoinSplit(w: int)
    ensures Join(w % 256, w / 256 % 256, w / 256 / 256 % 256, w / 256 / 256 / 256) == w
  {
    var q1 := w / 256;
    var q2 := q1 / 256;
    assert q2 % 256 + 256 * (q2 / 256) == q2;
    assert q1 % 256 + 256 * q2 == q1;
  }

  /** Writing a word changes that word and no other. */
  lemma WordSet(b: Block, k: nat, w: nat, j: nat)
    requires k < NINDIRECT && j < NINDIRECT && w < 0x1_0000_0000
    ensures Word(SetWord(b, k, w), j) == if j == k then w else Word(b, j)
  {
    JoinSplit(w);
  }

  // ----- Bits -----

  function Pow2(n: nat): nat {
    if n == 0 then 1 else 2 * Pow2(n - 1)
  }

  /** `x & (1 << i)` is not zero. */
  function BitOf(x: nat, i: nat): bool {
    if i == 0 then x % 2 == 1 else BitOf(x / 2, i - 1)
  }

  /** `x | (1 << i)`. */
  function SetBit(x: nat, i: nat): nat {
    if i == 0 then x / 2 * 2 + 1 else SetBit(x / 2, i - 1) * 2 + x % 2
  }

  /** `x & ~(1 << i)`. */
  function ClearBit(x: nat, i: nat): nat {
    if i == 0 then x / 2 * 2 else ClearBit(x / 2, i - 1) * 2 + x % 2
  }

  lemma Halve(y: nat, r: nat)
    requires r < 2
    ensures (y * 2 + r) / 2 == y && (y * 2 + r) % 2 == r
  {
  }

  lemma {:induction false} BitSet(x: nat, i: nat, j: nat)
    ensures BitOf(SetBit(x, i), j) == (i == j || BitOf(x, j))
    decreases i
  {
    if i == 0 {
      Halve(x / 2, 1);
    } else {
      Halve(SetBit(x / 2, i - 1), x % 2);
      if j > 0 {
        BitSet(x / 2, i - 1, j - 1);
      }
    }
  }

  lemma {:induction false} BitCleared(x: nat, i: nat, j: nat)
    ensures BitOf(ClearBit(x, i), j) == (i != j && BitOf(x, j))
    decreases i
  {
    if i == 0 {
      Halve(x / 2, 0);
    } else {
      Halve(ClearBit(x / 2, i - 1), x % 2);
      if j > 0 {
        BitCleared(x / 2, i - 1, j - 1);
      }
    }
  }

  lemma {:induction false} BitBound(x: nat, i: nat, n: nat)
    requires i < n && x < Pow2(n)
    ensures SetBit(x, i) < Pow2(n) && ClearBit(x, i) < Pow2(n)
    decreases i
  {
    if i > 0 {
      BitBound(x / 2, i - 1, n - 1);
    }
  }

  lemma ByteBound(x: Byte, i: nat)
    requires i < 8
    ensures SetBit(x, i) < 256 && ClearBit(x, i) < 256
  {
    assert Pow2(8) == 256;
    BitBound(x, i, 8);
  }

  /** Bit `bi` of a bitmap block. */
  predicate Bit(b: Block, bi: nat)
    requires bi < BPB
  {
    BitOf(b[bi / 8], bi % 8)
  }

  /** `bp->data[bi/8] |= 1 << (bi % 8)`. */
  function Marked(b: Block, bi: nat): Block
    requires bi < BPB
  {
    ByteBound(b[bi / 8], bi % 8);
    b[bi / 8 := SetBit(b[bi / 8], bi % 8)]
  }

  /** `bp->data[bi/8] &= ~(1 << (bi % 8))`. */
  function Unmarked(b: Block, bi: nat): Block
    requires bi < BPB
  {
    ByteBound(b[bi / 8], bi % 8);
    b[bi / 8 := ClearBit(b[bi / 8], bi % 8)]
  }

  /** Marking and unmarking change one bit. */
  lemma BitMarked(b: Block, bi: nat, bj: nat)
    requires bi < BPB && bj < BPB
    ensures Bit(Marked(b, bi), bj) == (bi == bj || Bit(b, bj))
    ensures Bit(Unmarked(b, bi), bj) == (bi != bj && Bit(b, bj))
  {
    BitSet(b[bi / 8], bi % 8, bj % 8);
    BitCleared(b[bi / 8], bi % 8, bj % 8);
    assert bi / 8 == bj / 8 && bi % 8 == bj % 8 ==> bi == bj;
  }
}
