/** Disk blocks as the kernel lays them out: BSIZE bytes, with 32-bit words stored
    little-endian (the layout mkfs writes and the x86 reads). */
module Blocks {
  import opened Words

  const BSIZE: nat := 512
  const WORDS: nat := 128                 // BSIZE / sizeof(uint)

  type Block = b: seq<Byte> | |b| == BSIZE witness seq(BSIZE, i => 0)
  type Disk = seq<Block>

  /** What memset(bp->data, 0, BSIZE) leaves. */
  function ZeroBlock(): (b: Block)
    ensures forall i :: 0 <= i < BSIZE ==> b[i] == 0
  {
    seq(BSIZE, i => 0)
  }

  /** ((uint*)bp->data)[i] */
  function Word(b: Block, i: nat): (w: U32)
    requires i < WORDS
  {
    var b0: int, b1: int, b2: int, b3: int := b[4 * i], b[4 * i + 1], b[4 * i + 2], b[4 * i + 3];
    b0 + 0x100 * b1 + 0x1_0000 * b2 + 0x100_0000 * b3
  }

  /** ((uint*)bp->data)[i] = w */
  function PutWord(b: Block, i: nat, w: U32): (r: Block)
    requires i < WORDS
  {
    b[4 * i := w % 0x100][4 * i + 1 := w / 0x100 % 0x100]
     [4 * i + 2 := w / 0x1_0000 % 0x100][4 * i + 3 := w / 0x100_0000]
  }

  lemma BytesOfWord(w: U32)
    ensures w == w % 0x100 + 0x100 * (w / 0x100 % 0x100) + 0x1_0000 * (w / 0x1_0000 % 0x100)
                 + 0x100_0000 * (w / 0x100_0000)
  {
    assert w % 0x1_0000 == w % 0x100 + 0x100 * (w / 0x100 % 0x100);
    assert w % 0x100_0000 == w % 0x1_0000 + 0x1_0000 * (w / 0x1_0000 % 0x100);
    assert w == w % 0x100_0000 + 0x100_0000 * (w / 0x100_0000);
  }

  /** A store of one word is read back, and no other word changes. */
  lemma WordOfPutWord(b: Block, i: nat, w: U32, j: nat)
    requires i < WORDS && j < WORDS
    ensures Word(PutWord(b, i, w), j) == if i == j then w else Word(b, j)
  {
    if i == j { BytesOfWord(w); }
  }

  /** Every word of a zeroed block is zero, the null block address. */
  lemma WordOfZeroBlock(i: nat)
    requires i < WORDS
    ensures Word(ZeroBlock(), i) == 0
  {}
}
