/** The on-disk layout of fs.h: free-map bits, packed disk inodes, and the block addresses an
    inode reaches directly and through its indirect block. */
module FsLayout {
  import opened Blocks
  import opened Words

  const NDIRECT: nat := 12
  const NINDIRECT: nat := WORDS
  const MAXFILE: nat := NDIRECT + NINDIRECT
  const IPB: nat := 8                    // BSIZE / sizeof(struct dinode)
  const BPB: nat := 8 * BSIZE

  /** struct superblock, and the first block after the free map. */
  datatype Super = Super(size: nat, ninodes: nat, inodestart: nat, bmapstart: nat, datastart: nat)

  function IBlock(sb: Super, inum: nat): (b: nat) { inum / IPB + sb.inodestart }

  function BBlock(sb: Super, b: nat): (r: nat) { b / BPB + sb.bmapstart }

  // ------------------------------------------------------------------ free map

  /** (x & (1 << k)) != 0 */
  predicate Bit(x: nat, k: nat) { if k == 0 then x % 2 == 1 else Bit(x / 2, k - 1) }

  function Pow2(n: nat): (p: nat) ensures p >= 1 { if n == 0 then 1 else 2 * Pow2(n - 1) }

  /** x | (1 << k), on n-bit values */
  function OrBit(x: nat, k: nat, n: nat): (r: nat)
    requires k < n
    ensures x < Pow2(n) ==> r < Pow2(n)
  {
    if k == 0 then (if x % 2 == 1 then x else x + 1) else 2 * OrBit(x / 2, k - 1, n - 1) + x % 2
  }

  /** x & ~(1 << k) */
  function ClearBit(x: nat, k: nat): (r: nat)
    ensures r <= x
  {
    if k == 0 then (if x % 2 == 1 then x - 1 else x) else 2 * ClearBit(x / 2, k - 1) + x % 2
  }

  lemma {:induction false} BitOfOr(x: nat, k: nat, n: nat, j: nat)
    requires k < n
    ensures Bit(OrBit(x, k, n), j) == (j == k || Bit(x, j))
  {
    if k > 0 && j > 0 {
      BitOfOr(x / 2, k - 1, n - 1, j - 1);
    }
  }

  lemma {:induction false} BitOfClear(x: nat, k: nat, j: nat)
    ensures Bit(ClearBit(x, k), j) == (j != k && Bit(x, j))
  {
    if k > 0 && j > 0 {
      BitOfClear(x / 2, k - 1, j - 1);
    }
  }

  /** bp->data[bi/8] |= m and bp->data[bi/8] &= ~m */
  function SetBitIn(b: Block, bi: nat): (r: Block)
    requires bi < BPB
  {
    assert Pow2(8) == 256;
    b[bi / 8 := OrBit(b[bi / 8], bi % 8, 8)]
  }

  function ClearBitIn(b: Block, bi: nat): (r: Block)
    requires bi < BPB
  {
    b[bi / 8 := ClearBit(b[bi / 8], bi % 8)]
  }

  predicate BitIn(b: Block, bi: nat) requires bi < BPB { Bit(b[bi / 8], bi % 8) }

  lemma BitInAfter(b: Block, bi: nat, bj: nat)
    requires bi < BPB && bj < BPB
    ensures BitIn(SetBitIn(b, bi), bj) == (bj == bi || BitIn(b, bj))
    ensures BitIn(ClearBitIn(b, bi), bj) == (bj != bi && BitIn(b, bj))
  {
    BitOfOr(b[bi / 8], bi % 8, 8, bj % 8);
    BitOfClear(b[bi / 8], bi % 8, bj % 8);
  }

  lemma {:induction false} OrBitAdds(x: nat, k: nat, n: nat)
    requires k < n
    ensures OrBit(x, k, n) == if Bit(x, k) then x else x + Pow2(k)
  {
    if k > 0 { OrBitAdds(x / 2, k - 1, n - 1); }
  }

  lemma {:induction false} ClearBitTakes(x: nat, k: nat)
    ensures ClearBit(x, k) == if Bit(x, k) then x - Pow2(k) else x
  {
    if k > 0 { ClearBitTakes(x / 2, k - 1); }
  }

  /** The bit for block bi of a map block has weight 2^(bi % 8) in byte bi / 8. */
  lemma BitWeight(b: Block, bi: nat)
    requires bi < BPB
    ensures !BitIn(b, bi) ==>
      b[bi / 8] + Pow2(bi % 8) < 256 && SetBitIn(b, bi) == b[bi / 8 := b[bi / 8] + Pow2(bi % 8)]
    ensures BitIn(b, bi) ==>
      b[bi / 8] >= Pow2(bi % 8) && ClearBitIn(b, bi) == b[bi / 8 := b[bi / 8] - Pow2(bi % 8)]
  {
    OrBitAdds(b[bi / 8], bi % 8, 8);
    ClearBitTakes(b[bi / 8], bi % 8);
  }

  // --------------------------------------------------------------- disk inodes

  type U16 = x: int | 0 <= x < 0x1_0000

  datatype Dinode = Dinode(kind: U16, major: U16, minor: U16, nlink: U16, size: U32, addrs: seq<U32>)

  predicate Shaped(d: Dinode) { |d.addrs| == NDIRECT + 1 }

  /** Sixteen words: type and major, minor and nlink, size, thirteen addresses. */
  function Encode(d: Dinode): (ws: seq<U32>)
    requires Shaped(d)
    ensures |ws| == 16
  {
    [d.kind + 0x1_0000 * d.major as int, d.minor + 0x1_0000 * d.nlink as int, d.size] + d.addrs
  }

  function Decode(ws: seq<U32>): (d: Dinode)
    requires |ws| == 16
    ensures Shaped(d)
  {
    Dinode(ws[0] % 0x1_0000, ws[0] / 0x1_0000, ws[1] % 0x1_0000, ws[1] / 0x1_0000, ws[2], ws[3..])
  }

  lemma DecodeEncode(d: Dinode)
    requires Shaped(d)
    ensures Decode(Encode(d)) == d
  {}

  function PutWords(b: Block, at: nat, ws: seq<U32>): (r: Block)
    requires at + |ws| <= WORDS
    decreases |ws|
  {
    if ws == [] then b else PutWords(PutWord(b, at, ws[0]), at + 1, ws[1..])
  }

  lemma {:induction false} WordOfPutWords(b: Block, at: nat, ws: seq<U32>, j: nat)
    requires at + |ws| <= WORDS && j < WORDS
    ensures Word(PutWords(b, at, ws), j) == if at <= j < at + |ws| then ws[j - at] else Word(b, j)
    decreases |ws|
  {
    if ws != [] {
      WordOfPutWords(PutWord(b, at, ws[0]), at + 1, ws[1..], j);
      WordOfPutWord(b, at, ws[0], j);
    }
  }

  function WordsAt(b: Block, at: nat, n: nat): (ws: seq<U32>)
    requires at + n <= WORDS
    ensures |ws| == n
  {
    seq<U32>(n, i requires 0 <= i < n => Word(b, at + i))
  }

  /** (struct dinode*)bp->data + slot */
  function GetDinode(b: Block, slot: nat): (d: Dinode)
    requires slot < IPB
    ensures Shaped(d)
  {
    Decode(WordsAt(b, 16 * slot, 16))
  }

  function PutDinode(b: Block, slot: nat, d: Dinode): (r: Block)
    requires slot < IPB && Shaped(d)
  {
    PutWords(b, 16 * slot, Encode(d))
  }

  /** iupdate's copy is read back by ilock, and the other inodes in the block are untouched. */
  lemma DinodeRoundTrip(b: Block, slot: nat, d: Dinode, s: nat)
    requires slot < IPB && s < IPB && Shaped(d)
    ensures GetDinode(PutDinode(b, slot, d), s) == if s == slot then d else GetDinode(b, s)
  {
    var r := PutDinode(b, slot, d);
    forall i | 0 <= i < 16
      ensures WordsAt(r, 16 * s, 16)[i] == if s == slot then Encode(d)[i] else WordsAt(b, 16 * s, 16)[i]
    {
      WordOfPutWords(b, 16 * slot, Encode(d), 16 * s + i);
    }
    if s == slot {
      assert WordsAt(r, 16 * s, 16) == Encode(d);
      DecodeEncode(d);
    } else {
      assert WordsAt(r, 16 * s, 16) == WordsAt(b, 16 * s, 16);
    }
  }

  // --------------------------------------------------------------- byte by byte

  /** A little-endian unsigned short and uint at byte p. */
  function Half(b: Block, p: nat): (w: nat)
    requires p + 1 < BSIZE
  {
    var lo: int, hi: int := b[p], b[p + 1];
    lo + 0x100 * hi
  }

  function Long(b: Block, p: nat): (w: nat)
    requires p + 3 < BSIZE
  {
    Half(b, p) + 0x1_0000 * Half(b, p + 2)
  }

  lemma LongIsWord(b: Block, j: nat)
    requires j < WORDS
    ensures Long(b, 4 * j) == Word(b, j)
  {}

  /** Two shorts in a word do not mix. */
  lemma HalvesOf(b: Block, p: nat, lo: U16, hi: U16)
    requires p + 3 < BSIZE && Long(b, p) == lo + 0x1_0000 * hi as int
    ensures Half(b, p) == lo && Half(b, p + 2) == hi
  {}

  lemma {:induction false} OtherBytes(b: Block, at: nat, ws: seq<U32>, p: nat)
    requires at + |ws| <= WORDS && p < BSIZE && !(4 * at <= p < 4 * (at + |ws|))
    ensures PutWords(b, at, ws)[p] == b[p]
    decreases |ws|
  {
    if ws != [] {
      OtherBytes(PutWord(b, at, ws[0]), at + 1, ws[1..], p);
    }
  }

  /** struct dinode as mkfs and the hardware see it: 64 bytes from 64 * slot on, type, major, minor and
      nlink in two bytes each, then the size and the addresses in four, and no byte outside is touched. */
  lemma DinodeBytes(b: Block, slot: nat, d: Dinode)
    requires slot < IPB && Shaped(d)
    ensures var r, at := PutDinode(b, slot, d), 64 * slot;
      && at + 64 <= BSIZE
      && Half(r, at) == d.kind && Half(r, at + 2) == d.major
      && Half(r, at + 4) == d.minor && Half(r, at + 6) == d.nlink
      && Long(r, at + 8) == d.size
      && (forall k :: 0 <= k <= NDIRECT ==> Long(r, at + 12 + 4 * k) == d.addrs[k])
      && forall p :: 0 <= p < BSIZE && !(at <= p < at + 64) ==> r[p] == b[p]
  {
    var r, ws, w := PutDinode(b, slot, d), Encode(d), 16 * slot;
    forall i | 0 <= i < 16 ensures Long(r, 4 * (w + i)) == ws[i] {
      WordOfPutWords(b, w, ws, w + i);
      LongIsWord(r, w + i);
    }
    assert Long(r, 4 * (w + 0)) == ws[0] && Long(r, 4 * (w + 1)) == ws[1] && Long(r, 4 * (w + 2)) == ws[2];
    HalvesOf(r, 64 * slot, d.kind, d.major);
    HalvesOf(r, 64 * slot + 4, d.minor, d.nlink);
    forall k | 0 <= k <= NDIRECT ensures Long(r, 64 * slot + 12 + 4 * k) == d.addrs[k] {
      assert Long(r, 4 * (w + (3 + k))) == ws[3 + k];
    }
    forall p | 0 <= p < BSIZE && !(64 * slot <= p < 64 * slot + 64) ensures r[p] == b[p] {
      OtherBytes(b, w, ws, p);
    }
  }
}
