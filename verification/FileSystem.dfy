/** The block, inode and file layers of fs.c over the logical disk: blocks is what bread shows
    (Cache.Shown), and every change to it is a bread, modify, log_write, brelse as in Log.Update. */
module FileSystem {
  import opened Wrappers
  import opened Blocks
  import opened Words
  import opened FsLayout
  import opened FsOwnership
  import opened FsSpace
  import opened Sets

  /** struct inode, in memory and locked by the caller. */
  class Inode {
    const inum: nat
    var kind: U16
    var major: U16
    var minor: U16
    var nlink: U16
    var size: U32
    const addrs: array<U32>

    ghost function Value(): (d: Dinode)
      reads this, addrs
    {
      Dinode(kind, major, minor, nlink, size, addrs[..])
    }

    /** ilock of an uncached inode: filled from its disk inode. */
    constructor (inum: nat, d: Dinode)
      requires Shaped(d)
      ensures this.inum == inum && Value() == d && fresh(addrs)
    {
      this.inum := inum;
      kind, major, minor, nlink, size := d.kind, d.major, d.minor, d.nlink, d.size;
      addrs := new U32[NDIRECT + 1](i requires 0 <= i < NDIRECT + 1 => d.addrs[i]);
      new;
      assert addrs[..] == d.addrs;
    }
  }

  /** Disk inode i is entry i of the table. */
  predicate InodeOnDisk(sb: Super, blocks: Disk, t: seq<Dinode>, i: nat)
    requires i < |t|
  {
    IBlock(sb, i) < |blocks| && GetDinode(blocks[IBlock(sb, i)], i % IPB) == t[i]
  }

  /** Every disk inode but that of inum, which its holder is changing, is what the table says. */
  ghost predicate Synced(sb: Super, blocks: Disk, t: seq<Dinode>, inum: int) {
    forall i :: 0 <= i < |t| && i != inum ==> InodeOnDisk(sb, blocks, t, i)
  }

  /** Every byte block below the size has a disk block. */
  ghost predicate Sized(blocks: Disk, d: Dinode)
    requires Shaped(d)
  {
    d.size <= MAXFILE * BSIZE && forall bn :: 0 <= bn < MAXFILE && BSIZE * bn < d.size ==> Addr(blocks, d, bn) != 0
  }

  ghost predicate AllSized(blocks: Disk, t: seq<Dinode>)
    requires IsTable(t)
  {
    forall i :: 0 <= i < |t| ==> Sized(blocks, t[i])
  }

  /** Blocks below the free map: the disk inodes among them. */
  ghost predicate SameInodeBlocks(sb: Super, blocks: Disk, blocks': Disk) {
    |blocks| == |blocks'| && forall b :: 0 <= b < sb.bmapstart && b < |blocks| ==> blocks'[b] == blocks[b]
  }

  lemma InodeBlockRange(sb: Super, blocks: Disk, t: seq<Dinode>, i: nat)
    requires Geometry(sb, blocks, t) && i < |t|
    ensures IBlock(sb, i) < sb.bmapstart < sb.datastart <= |blocks|
  {}

  lemma SyncedStays(sb: Super, blocks: Disk, blocks': Disk, t: seq<Dinode>, t': seq<Dinode>, inum: int)
    requires Geometry(sb, blocks, t) && Synced(sb, blocks, t, inum) && SameInodeBlocks(sb, blocks, blocks')
    requires |t'| == |t| && forall i :: 0 <= i < |t| && i != inum ==> t'[i] == t[i]
    ensures Synced(sb, blocks', t', inum)
  {
    forall i | 0 <= i < |t'| && i != inum ensures InodeOnDisk(sb, blocks', t', i) {
      InodeBlockRange(sb, blocks, t, i);
      assert InodeOnDisk(sb, blocks, t, i);
    }
  }

  lemma InodeStored(sb: Super, blocks: Disk, t: seq<Dinode>, inum: nat, d: Dinode)
    requires Geometry(sb, blocks, t) && inum < |t| && t[inum] == d && Synced(sb, blocks, t, inum)
    ensures var m := IBlock(sb, inum);
      && m < sb.bmapstart < sb.datastart <= |blocks|
      && Synced(sb, blocks[m := PutDinode(blocks[m], inum % IPB, d)], t, -1)
  {
    InodeBlockRange(sb, blocks, t, inum);
    var m := IBlock(sb, inum);
    var blocks' := blocks[m := PutDinode(blocks[m], inum % IPB, d)];
    forall i | 0 <= i < |t| ensures InodeOnDisk(sb, blocks', t, i) {
      if i != inum { assert InodeOnDisk(sb, blocks, t, i); }
      DinodeRoundTrip(blocks[m], inum % IPB, d, i % IPB);
      assert i == inum <==> IBlock(sb, i) == m && i % IPB == inum % IPB;
    }
  }

  lemma BitPlace(sb: Super, b: nat, bi: nat)
    requires b % BPB == 0 && bi < BPB
    ensures BBlock(sb, b + bi) == BBlock(sb, b) && (b + bi) % BPB == bi
  {}

  // -------------------------------------------------------------- byte positions

  function FileByte(blocks: Disk, d: Dinode, p: nat): (c: Byte)
    requires Shaped(d) && p < MAXFILE * BSIZE
  {
    BlockAt(blocks, d, p / BSIZE)[p % BSIZE]
  }

  /** A file as the byte sequence its readers see. */
  function Contents(blocks: Disk, d: Dinode): (s: seq<Byte>)
    requires Shaped(d) && d.size <= MAXFILE * BSIZE
    ensures |s| == d.size
  {
    seq<Byte>(d.size, p requires 0 <= p < d.size => FileByte(blocks, d, p))
  }

  /** The first tot bytes of the buffer are the file's bytes from off on. */
  ghost predicate ReadSoFar(blocks: Disk, d: Dinode, off: nat, buf: seq<Byte>, tot: nat) {
    && Shaped(d) && off + tot <= MAXFILE * BSIZE && tot <= |buf|
    && forall p :: 0 <= p < tot ==> buf[p] == FileByte(blocks, d, off + p)
  }

  lemma ReadNothing(blocks: Disk, d: Dinode, off: nat, buf: seq<Byte>)
    requires Shaped(d) && off <= MAXFILE * BSIZE
    ensures ReadSoFar(blocks, d, off, buf, 0)
  {}

  /** One round of readi's loop: m bytes from one block. */
  lemma ReadStep(blocks: Disk, d: Dinode, off: nat, was: seq<Byte>, now: seq<Byte>, tot: nat, m: nat)
    requires ReadSoFar(blocks, d, off, was, tot) && |now| == |was| && tot + m <= |now|
    requires off + tot + m <= MAXFILE * BSIZE && (off + tot) / BSIZE < MAXFILE && (off + tot) % BSIZE + m <= BSIZE
    requires forall p :: 0 <= p < tot ==> now[p] == was[p]
    requires forall p :: tot <= p < tot + m ==>
      now[p] == BlockAt(blocks, d, (off + tot) / BSIZE)[(off + tot) % BSIZE + (p - tot)]
    ensures ReadSoFar(blocks, d, off, now, tot + m)
  {}

  lemma ReadAll(blocks: Disk, d: Dinode, off: nat, buf: seq<Byte>, n: nat)
    requires ReadSoFar(blocks, d, off, buf, n) && off + n <= d.size <= MAXFILE * BSIZE
    ensures buf[..n] == Contents(blocks, d)[off..off + n]
  {}

  lemma SizedFits(blocks: Disk, d: Dinode)
    requires Shaped(d) && Sized(blocks, d)
    ensures d.size <= MAXFILE * BSIZE
  {}

  lemma AllocatedBelow(blocks: Disk, d: Dinode, p: nat)
    requires Shaped(d) && Sized(blocks, d) && p < d.size
    ensures p / BSIZE < MAXFILE && Addr(blocks, d, p / BSIZE) != 0
  {}

  lemma InRangeAddr(sb: Super, blocks: Disk, t: seq<Dinode>, owner: map<nat, Slot>, inum: nat, bn: nat)
    requires Owned(sb, blocks, t, owner, {}) && inum < |t| && bn < MAXFILE && Addr(blocks, t[inum], bn) != 0
    ensures Addr(blocks, t[inum], bn) < |blocks|
    ensures blocks[Addr(blocks, t[inum], bn)] == BlockAt(blocks, t[inum], bn)
  {
    NamedOwner(sb, blocks, t, owner, {}, SlotOf(inum, bn));
  }

  // ---------------------------------------------------------------------- writes

  /** What writing src at off makes of a file's contents. */
  function Spliced(was: seq<Byte>, off: nat, src: seq<Byte>): (r: seq<Byte>)
    requires off <= |was|
  {
    was[..off] + src + if off + |src| < |was| then was[off + |src|..] else []
  }

  /** Byte p of file inum once tot bytes of src have been written from off on. */
  function WrittenByte(b0: Disk, d0: Dinode, off: nat, src: seq<Byte>, tot: nat, p: nat): (c: Byte)
    requires Shaped(d0) && tot <= |src| && p < MAXFILE * BSIZE
  {
    if off <= p < off + tot then src[p - off] else FileByte(b0, d0, p)
  }

  ghost predicate OtherFilesSame(b0: Disk, t0: seq<Dinode>, b: Disk, t: seq<Dinode>, inum: nat)
    requires IsTable(t0) && IsTable(t)
  {
    && |t0| == |t|
    && forall i, k :: 0 <= i < |t| && i != inum && 0 <= k < MAXFILE ==> BlockAt(b, t[i], k) == BlockAt(b0, t0[i], k)
  }

  /** The state of writei's loop after tot bytes. */
  ghost predicate Writing(sb: Super, b0: Disk, t0: seq<Dinode>, b: Disk, t: seq<Dinode>, inum: nat, off: nat,
                          src: seq<Byte>, tot: nat)
    requires IsTable(t0) && IsTable(t) && inum < |t| == |t0| && tot <= |src|
  {
    && OtherFilesSame(b0, t0, b, t, inum)
    && (forall p: nat :: p < MAXFILE * BSIZE ==> FileByte(b, t[inum], p) == WrittenByte(b0, t0[inum], off, src, tot, p))
    && KeepsAddrs(b0, t0, b, t)
    && SameInodeBlocks(sb, b0, b)
    && (forall p: nat :: off <= p < off + tot && p < MAXFILE * BSIZE ==> Addr(b, t[inum], p / BSIZE) != 0)
    && (off + |src| <= t0[inum].size ==> t == t0)
  }

  /** Bytes cur..cur+m-1 of the file are exactly bytes cur%BSIZE.. of byte block cur/BSIZE. */
  lemma PositionIff(cur: nat, m: nat, p: nat)
    requires cur % BSIZE + m <= BSIZE
    ensures cur <= p < cur + m <==> p / BSIZE == cur / BSIZE && cur % BSIZE <= p % BSIZE < cur % BSIZE + m
    ensures cur <= p < cur + m ==> p % BSIZE == cur % BSIZE + (p - cur)
  {}

  /** memmove(bp->data + k, src, m) */
  function Patched(c: Block, k: nat, piece: seq<Byte>): (r: Block)
    requires k + |piece| <= BSIZE
  {
    c[..k] + piece + c[k + |piece|..]
  }

  /** The block writei's round leaves at byte block bn, seen at byte p of the file. */
  lemma PatchedByte(d0: Disk, e0: Dinode, off: nat, src: seq<Byte>, tot: nat, m: nat, c: Block, p: nat)
    requires Shaped(e0) && tot + m <= |src| && (off + tot) % BSIZE + m <= BSIZE
    requires p < MAXFILE * BSIZE && p / BSIZE == (off + tot) / BSIZE
    requires c[p % BSIZE] == WrittenByte(d0, e0, off, src, tot, p)
    ensures Patched(c, (off + tot) % BSIZE, src[tot..tot + m])[p % BSIZE] == WrittenByte(d0, e0, off, src, tot + m, p)
  {}

  /** The loop state apart from the bytes: other files, block numbers, the blocks written so far. */
  lemma WriteStepRest(sb: Super, b0: Disk, t0: seq<Dinode>, b: Disk, t: seq<Dinode>, b1: Disk, t1: seq<Dinode>,
                      b2: Disk, inum: nat, off: nat, src: seq<Byte>, tot: nat, m: nat, c: Block)
    requires IsTable(t0) && IsTable(t) && IsTable(t1) && inum < |t| == |t0| == |t1| && tot + m <= |src|
    requires Writing(sb, b0, t0, b, t, inum, off, src, tot)
    requires SameFiles(b, t, b1, t1) && KeepsAddrs(b, t, b1, t1)
    requires (off + tot) / BSIZE < MAXFILE && (off + tot) % BSIZE + m <= BSIZE
    requires Addr(b1, t1[inum], (off + tot) / BSIZE) != 0
    requires OneBlockChanged(b1, t1, b2, inum, (off + tot) / BSIZE, c)
    requires KeepsAddrs(b1, t1, b2, t1)
    ensures OtherFilesSame(b0, t0, b2, t1, inum) && KeepsAddrs(b0, t0, b2, t1)
    ensures forall p: nat :: off <= p < off + tot + m && p < MAXFILE * BSIZE ==> Addr(b2, t1[inum], p / BSIZE) != 0
  {}

  /** One round of writei's loop: bmap, then the patched block. */
  lemma WriteStep(sb: Super, b0: Disk, t0: seq<Dinode>, b: Disk, t: seq<Dinode>, b1: Disk, t1: seq<Dinode>, b2: Disk,
                  inum: nat, off: nat, src: seq<Byte>, tot: nat, m: nat)
    requires IsTable(t0) && IsTable(t) && IsTable(t1) && inum < |t| == |t0| == |t1| && tot + m <= |src|
    requires Writing(sb, b0, t0, b, t, inum, off, src, tot)
    requires SameFiles(b, t, b1, t1) && KeepsAddrs(b, t, b1, t1) && SameInodeBlocks(sb, b, b1)
    requires (off + tot) / BSIZE < MAXFILE && (off + tot) % BSIZE + m <= BSIZE
    requires Addr(b1, t1[inum], (off + tot) / BSIZE) != 0
    requires OneBlockChanged(b1, t1, b2, inum, (off + tot) / BSIZE,
               Patched(BlockAt(b1, t1[inum], (off + tot) / BSIZE), (off + tot) % BSIZE, src[tot..tot + m]))
    requires KeepsAddrs(b1, t1, b2, t1) && SameInodeBlocks(sb, b1, b2)
    requires off + |src| <= t0[inum].size ==> t1 == t
    ensures Writing(sb, b0, t0, b2, t1, inum, off, src, tot + m)
  {
    hide Patched, Addr, BlockAt;
    var bn := (off + tot) / BSIZE;
    forall p: nat | p < MAXFILE * BSIZE
      ensures FileByte(b2, t1[inum], p) == WrittenByte(b0, t0[inum], off, src, tot + m, p)
    {
      assert FileByte(b, t[inum], p) == WrittenByte(b0, t0[inum], off, src, tot, p);
      assert BlockAt(b1, t1[inum], p / BSIZE) == BlockAt(b, t[inum], p / BSIZE);
      if p / BSIZE == bn {
        PatchedByte(b0, t0[inum], off, src, tot, m, BlockAt(b1, t1[inum], bn), p);
      } else {
        PositionIff(off + tot, m, p);
        assert BlockAt(b2, t1[inum], p / BSIZE) == BlockAt(b1, t1[inum], p / BSIZE);
      }
    }
    WriteStepRest(sb, b0, t0, b, t, b1, t1, b2, inum, off, src, tot, m,
                  Patched(BlockAt(b1, t1[inum], bn), (off + tot) % BSIZE, src[tot..tot + m]));
  }

  lemma StillAllocated(sb: Super, b0: Disk, t0: seq<Dinode>, b: Disk, t: seq<Dinode>, inum: nat, off: nat,
                       src: seq<Byte>, tot: nat)
    requires IsTable(t0) && IsTable(t) && inum < |t| == |t0| && tot < |src|
    requires Writing(sb, b0, t0, b, t, inum, off, src, tot)
    requires Sized(b0, t0[inum]) && off + |src| <= t0[inum].size
    ensures (off + tot) / BSIZE < MAXFILE && Addr(b, t[inum], (off + tot) / BSIZE) != 0
  {}

  lemma SameInodesAfter(sb: Super, b: Disk, t: seq<Dinode>, a: nat, c: Block)
    requires Geometry(sb, b, t) && sb.datastart <= a < |b|
    ensures SameInodeBlocks(sb, b, b[a := c])
  {}

  lemma WritingStarts(sb: Super, b0: Disk, t0: seq<Dinode>, inum: nat, off: nat, src: seq<Byte>)
    requires IsTable(t0) && inum < |t0|
    ensures Writing(sb, b0, t0, b0, t0, inum, off, src, 0)
  {}

  /** No name depends on a size. */
  lemma SizeKeeps(sb: Super, blocks: Disk, t: seq<Dinode>, owner: map<nat, Slot>, inum: nat, size: U32)
    requires Owned(sb, blocks, t, owner, {}) && inum < |t|
    ensures Owned(sb, blocks, t[inum := t[inum].(size := size)], owner, {})
  {
    var t' := t[inum := t[inum].(size := size)];
    assert forall s :: IsSlot(t, s) ==> Named(blocks, t', s) == Named(blocks, t, s);
  }

  lemma SyncedBut(sb: Super, blocks: Disk, t: seq<Dinode>, inum: int)
    requires Synced(sb, blocks, t, -1)
    ensures Synced(sb, blocks, t, inum)
  {}

  /** Neither the blocks nor the block numbers of a file depend on its size. */
  lemma SizeInvisible(b: Disk, t: seq<Dinode>, t': seq<Dinode>, inum: nat)
    requires IsTable(t) && IsTable(t') && inum < |t| == |t'|
    requires forall i :: 0 <= i < |t| && i != inum ==> t'[i] == t[i]
    requires t'[inum].addrs == t[inum].addrs
    ensures SameFiles(b, t, b, t') && KeepsAddrs(b, t, b, t')
  {}

  lemma OtherFinal(sb: Super, b0: Disk, t0: seq<Dinode>, b1: Disk, t1: seq<Dinode>, b2: Disk, t2: seq<Dinode>,
                   inum: nat, off: nat, src: seq<Byte>, i: nat)
    requires IsTable(t0) && IsTable(t1) && IsTable(t2) && inum < |t0| == |t1| == |t2|
    requires Writing(sb, b0, t0, b1, t1, inum, off, src, |src|)
    requires SameFiles(b1, t1, b2, t2) && KeepsAddrs(b1, t1, b2, t2)
    requires i < |t0| && i != inum && t2[i] == t0[i] && Sized(b0, t0[i])
    ensures Sized(b2, t2[i]) && Contents(b2, t2[i]) == Contents(b0, t0[i])
  {}

  lemma OwnSized(sb: Super, b0: Disk, t0: seq<Dinode>, b1: Disk, t1: seq<Dinode>, b2: Disk, t2: seq<Dinode>,
                 inum: nat, off: nat, src: seq<Byte>)
    requires IsTable(t0) && IsTable(t1) && IsTable(t2) && inum < |t0| == |t1| == |t2|
    requires Writing(sb, b0, t0, b1, t1, inum, off, src, |src|) && Sized(b0, t0[inum])
    requires KeepsAddrs(b1, t1, b2, t2)
    requires off <= t0[inum].size && off + |src| <= MAXFILE * BSIZE
    requires t2[inum].size == if off + |src| > t0[inum].size then off + |src| else t0[inum].size
    ensures Sized(b2, t2[inum])
  {
    forall bn | 0 <= bn < MAXFILE && BSIZE * bn < t2[inum].size ensures Addr(b2, t2[inum], bn) != 0 {
      if BSIZE * bn < t0[inum].size {
        assert Addr(b1, t1[inum], bn) == Addr(b0, t0[inum], bn);
      } else {
        var p := BSIZE * bn;
        assert p / BSIZE == bn;
        assert Addr(b1, t1[inum], p / BSIZE) != 0;
      }
    }
  }

  /** From bytes to contents, at the end of a write. */
  lemma WritingFinal(sb: Super, b0: Disk, t0: seq<Dinode>, b1: Disk, t1: seq<Dinode>, b2: Disk, t2: seq<Dinode>,
                     inum: nat, off: nat, src: seq<Byte>)
    requires IsTable(t0) && IsTable(t1) && IsTable(t2) && inum < |t0| == |t1| == |t2|
    requires Writing(sb, b0, t0, b1, t1, inum, off, src, |src|) && AllSized(b0, t0)
    requires SameFiles(b1, t1, b2, t2) && KeepsAddrs(b1, t1, b2, t2)
    requires forall i :: 0 <= i < |t0| && i != inum ==> t2[i] == t0[i]
    requires off <= t0[inum].size && off + |src| <= MAXFILE * BSIZE
    requires t2[inum].size == if off + |src| > t0[inum].size then off + |src| else t0[inum].size
    ensures AllSized(b2, t2)
    ensures Contents(b2, t2[inum]) == Spliced(Contents(b0, t0[inum]), off, src)
    ensures forall i :: 0 <= i < |t0| && i != inum ==> Contents(b2, t2[i]) == Contents(b0, t0[i])
  {
    forall i | 0 <= i < |t0| && i != inum ensures Sized(b2, t2[i]) && Contents(b2, t2[i]) == Contents(b0, t0[i]) {
      OtherFinal(sb, b0, t0, b1, t1, b2, t2, inum, off, src, i);
    }
    OwnSized(sb, b0, t0, b1, t1, b2, t2, inum, off, src);
    forall p: nat | p < t2[inum].size
      ensures Contents(b2, t2[inum])[p] == Spliced(Contents(b0, t0[inum]), off, src)[p]
    {
      assert FileByte(b1, t1[inum], p) == WrittenByte(b0, t0[inum], off, src, |src|, p);
      assert BlockAt(b2, t2[inum], p / BSIZE) == BlockAt(b1, t1[inum], p / BSIZE);
    }
  }

  lemma FilesRefl(b: Disk, t: seq<Dinode>)
    requires IsTable(t)
    ensures SameFiles(b, t, b, t) && KeepsAddrs(b, t, b, t)
  {}

  /** A write that ends within the file has allocated nothing, so no inode has to be updated. */
  lemma WritingDone(sb: Super, b0: Disk, t0: seq<Dinode>, b: Disk, t: seq<Dinode>, inum: nat, off: nat, src: seq<Byte>)
    requires Geometry(sb, b0, t0) && IsTable(t) && inum < |t| == |t0|
    requires AllSized(b0, t0) && Synced(sb, b0, t0, -1)
    requires Writing(sb, b0, t0, b, t, inum, off, src, |src|)
    requires off + |src| <= t0[inum].size
    ensures t == t0 && AllSized(b, t) && Synced(sb, b, t, -1)
    ensures Contents(b, t[inum]) == Spliced(Contents(b0, t0[inum]), off, src)
    ensures forall i :: 0 <= i < |t| && i != inum ==> Contents(b, t[i]) == Contents(b0, t0[i])
  {
    SyncedStays(sb, b0, b, t0, t, -1);
    FilesRefl(b, t);
    hide SameFiles, KeepsAddrs, Contents, Synced;
    WritingFinal(sb, b0, t0, b, t, b, t, inum, off, src);
  }

  lemma KeepsTrans(b0: Disk, t0: seq<Dinode>, b1: Disk, t1: seq<Dinode>, b2: Disk, t2: seq<Dinode>)
    requires IsTable(t0) && IsTable(t1) && IsTable(t2)
    requires KeepsAddrs(b0, t0, b1, t1) && KeepsAddrs(b1, t1, b2, t2)
    ensures KeepsAddrs(b0, t0, b2, t2)
  {}

  // ------------------------------------------------------------------ truncation

  /** Every inode but inum has its fields, its block numbers and its bytes. */
  ghost predicate OthersIntact(b0: Disk, t0: seq<Dinode>, b: Disk, t: seq<Dinode>, inum: nat)
    requires IsTable(t0) && IsTable(t)
  {
    && |t0| == |t|
    && (forall i :: 0 <= i < |t| && i != inum ==> t[i] == t0[i])
    && (forall i, k :: 0 <= i < |t| && i != inum && 0 <= k < MAXFILE ==> BlockAt(b, t[i], k) == BlockAt(b0, t0[i], k))
    && (forall i, k :: 0 <= i < |t| && i != inum && 0 <= k < MAXFILE && Addr(b0, t0[i], k) != 0 ==>
          Addr(b, t[i], k) == Addr(b0, t0[i], k))
  }

  lemma IntactTrans(b0: Disk, t0: seq<Dinode>, b1: Disk, t1: seq<Dinode>, b2: Disk, t2: seq<Dinode>, inum: nat)
    requires IsTable(t0) && IsTable(t1) && IsTable(t2) && |t1| == |t2|
    requires OthersIntact(b0, t0, b1, t1, inum)
    requires forall i :: 0 <= i < |t1| && i != inum ==> t2[i] == t1[i]
    requires SameFiles(b1, t2, b2, t2) && KeepsAddrs(b1, t2, b2, t2)
    ensures OthersIntact(b0, t0, b2, t2, inum)
  {}

  lemma IntactSized(b0: Disk, t0: seq<Dinode>, b: Disk, t: seq<Dinode>, inum: nat)
    requires IsTable(t0) && IsTable(t) && OthersIntact(b0, t0, b, t, inum) && AllSized(b0, t0)
    requires inum < |t| && t[inum].size == 0
    ensures AllSized(b, t)
    ensures forall i :: 0 <= i < |t| && i != inum ==> Contents(b, t[i]) == Contents(b0, t0[i])
  {}

  /** What is left of the owners when inode inum has given up its first k direct blocks, and with
      all its indirect block as well. */
  function WithoutDirect(owner: map<nat, Slot>, inum: nat, k: nat): (r: map<nat, Slot>) {
    map b | b in owner && !(owner[b].Direct? && owner[b].inum == inum && owner[b].i < k) :: owner[b]
  }

  function WithoutInode(owner: map<nat, Slot>, inum: nat): (r: map<nat, Slot>) {
    map b | b in owner && owner[b].inum != inum :: owner[b]
  }

  lemma WithoutNone(owner: map<nat, Slot>, inum: nat)
    ensures WithoutDirect(owner, inum, 0) == owner
  {}

  lemma SameInodesTrans(sb: Super, b0: Disk, b1: Disk, b2: Disk)
    ensures SameInodeBlocks(sb, b0, b1) && SameInodeBlocks(sb, b1, b2) ==> SameInodeBlocks(sb, b0, b2)
    ensures SameInodeBlocks(sb, b0, b0)
  {}

  lemma NamedDirect(blocks: Disk, t: seq<Dinode>, inum: nat, k: nat)
    requires IsTable(t) && inum < |t| && k < NDIRECT
    ensures IsSlot(t, Direct(inum, k)) && Named(blocks, t, Direct(inum, k)) == t[inum].addrs[k]
  {}

  lemma WithoutNext(owner: map<nat, Slot>, inum: nat, k: nat, a: nat)
    requires forall b :: b in WithoutDirect(owner, inum, k) ==> (owner[b] == Direct(inum, k) <==> b == a)
    ensures WithoutDirect(owner, inum, k + 1) == WithoutDirect(owner, inum, k) - {a}
  {}

  lemma NextDirect(sb: Super, blocks: Disk, t: seq<Dinode>, owner0: map<nat, Slot>, inum: nat, k: nat)
    requires Owned(sb, blocks, t, WithoutDirect(owner0, inum, k), {}) && inum < |t| && k < NDIRECT
    ensures WithoutDirect(owner0, inum, k + 1) == WithoutDirect(owner0, inum, k) - {t[inum].addrs[k]}
  {
    hide Owned, Named;
    var o := WithoutDirect(owner0, inum, k);
    OwnedRange(sb, blocks, t, o, {});
    var a: nat := t[inum].addrs[k];
    NamedDirect(blocks, t, inum, k);
    forall b | b in o ensures o[b] == Direct(inum, k) <==> b == a {
      NamesAreOwners(sb, blocks, t, o, Direct(inum, k), b);
    }
    WithoutNext(owner0, inum, k, a);
  }

  lemma OwnedIsNamed(sb: Super, blocks: Disk, t: seq<Dinode>, o: map<nat, Slot>, inum: nat, b: nat)
    requires Owned(sb, blocks, t, o, {}) && inum < |t| && b in o && !o[b].Direct? && o[b].inum == inum
    ensures var ind: nat := t[inum].addrs[NDIRECT];
      ind != 0 && b in {ind} + Entries(blocks, t[inum])
  {
    hide Owned;
    OwnerNames(sb, blocks, t, o, {}, b);
    if o[b].Entry? { assert EntryOf(blocks, t[inum], o[b].j) == b; }
  }

  /** With the direct blocks gone, an inode owns its indirect block and what that names. */
  lemma LastOwner(sb: Super, blocks: Disk, t: seq<Dinode>, o: map<nat, Slot>, inum: nat, b: nat)
    requires Owned(sb, blocks, t, o, {}) && inum < |t| && b in o && !(o[b].Direct? && o[b].inum == inum)
    ensures var ind: nat := t[inum].addrs[NDIRECT];
      b in (if ind == 0 then {} else {ind} + Entries(blocks, t[inum])) <==> o[b].inum == inum
  {
    var d := t[inum];
    var ind: nat := d.addrs[NDIRECT];
    if o[b].inum == inum {
      OwnedIsNamed(sb, blocks, t, o, inum, b);
    } else if ind != 0 && b == ind {
      NamedOwner(sb, blocks, t, o, {}, Indirect(inum));
    } else if ind != 0 && b in Entries(blocks, d) {
      var j :| 0 <= j < NINDIRECT && EntryOf(blocks, d, j) != 0 && EntryOf(blocks, d, j) == b;
      NamedOwner(sb, blocks, t, o, {}, Entry(inum, j));
    }
  }

  lemma LastOwners(sb: Super, blocks: Disk, t: seq<Dinode>, owner0: map<nat, Slot>, inum: nat)
    requires Owned(sb, blocks, t, WithoutDirect(owner0, inum, NDIRECT), {}) && inum < |t|
    ensures WithoutInode(owner0, inum) == WithoutDirect(owner0, inum, NDIRECT)
      - (if t[inum].addrs[NDIRECT] == 0 then {} else {t[inum].addrs[NDIRECT]} + Entries(blocks, t[inum]))
  {
    var o, d := WithoutDirect(owner0, inum, NDIRECT), t[inum];
    var gone := if d.addrs[NDIRECT] == 0 then {} else {d.addrs[NDIRECT]} + Entries(blocks, d);
    forall b | b in o ensures b in gone <==> owner0[b].inum == inum {
      assert !(o[b].Direct? && o[b].inum == inum) by { OwnedRange(sb, blocks, t, o, {}); }
      LastOwner(sb, blocks, t, o, inum, b);
    }
    forall b | b in owner0 && b !in o ensures owner0[b].inum == inum {}
  }

  /** The entries from j on. */
  function Rest(a: Block, j: nat): (s: set<nat>) {
    set k | j <= k < NINDIRECT && Word(a, k) != 0 :: Word(a, k)
  }

  ghost predicate DistinctEntries(a: Block) {
    forall i, k :: 0 <= i < NINDIRECT && 0 <= k < NINDIRECT && i != k && Word(a, i) != 0 ==> Word(a, i) != Word(a, k)
  }

  lemma RestStep(a: Block, j: nat)
    requires j < NINDIRECT
    requires DistinctEntries(a)
    ensures Rest(a, j + 1) == Rest(a, j) - {Word(a, j)}
    ensures Word(a, j) != 0 ==> Word(a, j) in Rest(a, j)
  {}

  lemma EntriesDistinct(sb: Super, blocks: Disk, t: seq<Dinode>, owner: map<nat, Slot>, inum: nat)
    requires Owned(sb, blocks, t, owner, {}) && inum < |t| && t[inum].addrs[NDIRECT] != 0
    ensures var ind := t[inum].addrs[NDIRECT];
      && ind < |blocks| && ind < sb.size
      && Entries(blocks, t[inum]) == Rest(blocks[ind], 0)
      && DistinctEntries(blocks[ind])
  {
    NamedOwner(sb, blocks, t, owner, {}, Indirect(inum));
    var ind := t[inum].addrs[NDIRECT];
    forall i, k | 0 <= i < NINDIRECT && 0 <= k < NINDIRECT && i != k && Word(blocks[ind], i) != 0
      ensures Word(blocks[ind], i) != Word(blocks[ind], k)
    {
      SlotsNameDistinctBlocks(sb, blocks, t, owner, {}, Entry(inum, i), Entry(inum, k));
    }
    forall j | 0 <= j < NINDIRECT ensures EntryOf(blocks, t[inum], j) == Word(blocks[ind], j) {}
  }

  lemma IntactRefl(b: Disk, t: seq<Dinode>, inum: nat)
    requires IsTable(t)
    ensures OthersIntact(b, t, b, t, inum)
  {}

  /** No block is called 0, so a zero address frees nothing. */
  lemma OwnerSame(sb: Super, blocks: Disk, t: seq<Dinode>, owner: map<nat, Slot>, inum: nat, i: nat)
    requires Owned(sb, blocks, t, owner, {}) && inum < |t| && i <= NDIRECT && t[inum].addrs[i] == 0
    ensures owner - {t[inum].addrs[i] as nat} == owner
  {}

  lemma ClearedAlready(t: seq<Dinode>, inum: nat, i: nat)
    requires IsTable(t) && inum < |t| && i <= NDIRECT && t[inum].addrs[i] == 0
    ensures SetAddr(t, inum, i, 0) == t
  {
    assert t[inum].addrs[i := 0] == t[inum].addrs;
  }

  lemma ZeroNotIn(a: Block, j: nat)
    requires j < NINDIRECT && Word(a, j) == 0
    ensures Rest(a, j) - {Word(a, j)} == Rest(a, j)
  {}

  lemma RestEmpty(a: Block)
    ensures Rest(a, NINDIRECT) == {}
  {}

  /** Freeing an entry leaves the indirect block itself still to be freed. */
  lemma IndNotEntry(a: Block, j: nat, ind: nat, es: set<nat>)
    requires j < NINDIRECT && Word(a, j) != 0 && es == Rest(a, 0) && ind !in es
    ensures {ind} + Rest(a, j) - {Word(a, j)} == {ind} + (Rest(a, j) - {Word(a, j)})
  {}

  function AddrSlot(inum: nat, k: nat): (s: Slot) { if k < NDIRECT then Direct(inum, k) else Indirect(inum) }

  lemma FilesTrans(b0: Disk, t0: seq<Dinode>, b1: Disk, t1: seq<Dinode>, b2: Disk, t2: seq<Dinode>)
    requires IsTable(t0) && IsTable(t1) && IsTable(t2)
    requires SameFiles(b0, t0, b1, t1) && SameFiles(b1, t1, b2, t2)
    requires KeepsAddrs(b0, t0, b1, t1) && KeepsAddrs(b1, t1, b2, t2)
    ensures SameFiles(b0, t0, b2, t2) && KeepsAddrs(b0, t0, b2, t2)
  {}

  /** balloc followed by the store of an address, on the whole state. */
  lemma AllocAddr(sb: Super, blocks: Disk, t: seq<Dinode>, owner: map<nat, Slot>, inum: nat, k: nat, b: U32)
    requires Owned(sb, blocks, t, owner, {}) && inum < |t| && k <= NDIRECT && t[inum].addrs[k] == 0
    requires b < sb.size && !Used(sb, blocks, b)
    ensures BBlock(sb, b) < |blocks| && b < |blocks| && b != 0
    ensures var blocks', t' := MarkUsed(sb, blocks, b)[b := ZeroBlock()], SetAddr(t, inum, k, b);
      && Owned(sb, blocks', t', owner[b := AddrSlot(inum, k)], {})
      && SameFiles(blocks, t, blocks', t') && KeepsAddrs(blocks, t, blocks', t')
      && SameInodeBlocks(sb, blocks, blocks')
  {
    OwnedRange(sb, blocks, t, owner, {});
    MapBlocksAreMetadata(sb, blocks, t, b);
    AllocKeeps(sb, blocks, t, owner, {}, b);
    var blocks', t' := MarkUsed(sb, blocks, b)[b := ZeroBlock()], SetAddr(t, inum, k, b);
    hide Owned, Used, SameFiles, KeepsAddrs;
    if k < NDIRECT {
      AssignDirect(sb, blocks', t, owner, {} + {b}, inum, k, b);
    } else {
      AssignIndirect(sb, blocks', t, owner, {} + {b}, inum, b);
    }
    assert ({} + {b}) - {b} == {};
    FilesTrans(blocks, t, blocks', t, blocks', t');
  }

  lemma EntryReadBack(b1: Disk, d: Dinode, j: nat, b: U32)
    requires Shaped(d) && j < NINDIRECT && 0 < d.addrs[NDIRECT] < |b1|
    ensures var ind := d.addrs[NDIRECT]; EntryOf(b1[ind := PutWord(b1[ind], j, b)], d, j) == b
  {
    WordOfPutWord(b1[d.addrs[NDIRECT]], j, b, j);
  }

  lemma InodeBlocksApart(sb: Super, blocks: Disk, b1: Disk, ind: nat, c: Block)
    requires SameInodeBlocks(sb, blocks, b1) && sb.bmapstart < ind < |b1|
    ensures SameInodeBlocks(sb, blocks, b1[ind := c])
  {}

  /** A new block's number goes into the indirect block. */
  lemma EntryStored(sb: Super, blocks: Disk, b1: Disk, t: seq<Dinode>, owner: map<nat, Slot>, inum: nat, j: nat, b: U32)
    requires Owned(sb, b1, t, owner, {} + {b}) && IsSlot(t, Entry(inum, j)) && b != 0 && |b1| == |blocks| && b < |b1|
    requires t[inum].addrs[NDIRECT] != 0 && EntryOf(b1, t[inum], j) == 0 && b1[b] == ZeroBlock()
    requires SameFiles(blocks, t, b1, t) && KeepsAddrs(blocks, t, b1, t) && SameInodeBlocks(sb, blocks, b1)
    ensures var ind := t[inum].addrs[NDIRECT];
      && ind < |b1|
      && var blocks' := b1[ind := PutWord(b1[ind], j, b)];
      && Owned(sb, blocks', t, owner[b := Entry(inum, j)], {})
      && EntryOf(blocks', t[inum], j) == b
      && SameFiles(blocks, t, blocks', t) && KeepsAddrs(blocks, t, blocks', t)
      && SameInodeBlocks(sb, blocks, blocks')
  {
    OwnedRange(sb, b1, t, owner, {} + {b});
    var ind, none := t[inum].addrs[NDIRECT], {} + {b};
    assert Named(b1, t, Entry(inum, j)) == 0 && sb.bmapstart < sb.datastart;
    hide *;
    AssignEntry(sb, b1, t, owner, none, inum, j, b);
    var blocks' := b1[ind := PutWord(b1[ind], j, b)];
    assert none - {b} == {};
    FilesTrans(blocks, t, b1, t, blocks', t);
    EntryReadBack(b1, t[inum], j, b);
    InodeBlocksApart(sb, blocks, b1, ind, PutWord(b1[ind], j, b));
  }

  /** balloc followed by the store of an entry of the indirect block, on the whole state. */
  lemma AllocEntry(sb: Super, blocks: Disk, t: seq<Dinode>, owner: map<nat, Slot>, inum: nat, j: nat, b: U32)
    requires Owned(sb, blocks, t, owner, {}) && inum < |t| && j < NINDIRECT
    requires t[inum].addrs[NDIRECT] != 0 && EntryOf(blocks, t[inum], j) == 0
    requires b < sb.size && !Used(sb, blocks, b)
    ensures BBlock(sb, b) < |blocks| && b < |blocks| && b != 0
    ensures var ind, b1 := t[inum].addrs[NDIRECT], MarkUsed(sb, blocks, b)[b := ZeroBlock()];
      && ind < |blocks|
      && var blocks' := b1[ind := PutWord(b1[ind], j, b)];
      && Owned(sb, blocks', t, owner[b := Entry(inum, j)], {})
      && EntryOf(blocks', t[inum], j) == b
      && SameFiles(blocks, t, blocks', t) && KeepsAddrs(blocks, t, blocks', t)
      && SameInodeBlocks(sb, blocks, blocks')
  {
    OwnedRange(sb, blocks, t, owner, {});
    MapBlocksAreMetadata(sb, blocks, t, b);
    AllocKeeps(sb, blocks, t, owner, {}, b);
    NamedOwner(sb, blocks, t, owner, {}, Indirect(inum));
    var ind, b1 := t[inum].addrs[NDIRECT], MarkUsed(sb, blocks, b)[b := ZeroBlock()];
    NamedSame(sb, blocks, b1, t, owner, {}, Entry(inum, j));
    assert IsSlot(t, Entry(inum, j)) && EntryOf(b1, t[inum], j) == 0 && b1[b] == ZeroBlock();
    assert SameInodeBlocks(sb, blocks, b1);
    EntryStored(sb, blocks, b1, t, owner, inum, j, b);
  }

  /** The block that balloc found was nobody's, and is now the slot's. */
  lemma AddrTaken(sb: Super, b0: Disk, t0: seq<Dinode>, o: map<nat, Slot>, b: Disk, t: seq<Dinode>, inum: nat, k: nat,
                  x: U32)
    requires Owned(sb, b0, t0, o, {}) && inum < |t0| && k <= NDIRECT && t0[inum].addrs[k] == 0
    requires x < sb.size && x != 0 && !Used(sb, b0, x)
    requires IsTable(t) && |t| == |t0| && Owned(sb, b, t, o[x := AddrSlot(inum, k)], {})
    ensures Took(sb, b0, t0, b, t, {AddrSlot(inum, k)})
  {
    OwnedRange(sb, b0, t0, o, {});
    assert IsSlot(t0, AddrSlot(inum, k)) && Named(b0, t0, AddrSlot(inum, k)) == 0;
    hide *;
    TookOne(sb, b0, t0, o, b, t, AddrSlot(inum, k), x);
  }

  lemma EntryTaken(sb: Super, b0: Disk, t: seq<Dinode>, o: map<nat, Slot>, b: Disk, inum: nat, j: nat, x: U32)
    requires Owned(sb, b0, t, o, {}) && inum < |t| && j < NINDIRECT && EntryOf(b0, t[inum], j) == 0
    requires x < sb.size && x != 0 && !Used(sb, b0, x)
    requires IsTable(t) && Owned(sb, b, t, o[x := Entry(inum, j)], {})
    ensures Took(sb, b0, t, b, t, {Entry(inum, j)})
  {
    OwnedRange(sb, b0, t, o, {});
    assert IsSlot(t, Entry(inum, j)) && Named(b0, t, Entry(inum, j)) == 0;
    hide *;
    TookOne(sb, b0, t, o, b, t, Entry(inum, j), x);
  }

  // ------------------------------------------------------ what goes to log_write

  /** The blocks of the free map. */
  function MapBlocks(sb: Super): (s: set<nat>) { set b: nat | b < sb.size :: BBlock(sb, b) }

  /** The indirect block, if there is one. */
  function IndirectOf(addrs: seq<U32>): (s: set<nat>)
    requires |addrs| == NDIRECT + 1
  {
    if addrs[NDIRECT] == 0 then {} else {addrs[NDIRECT] as nat}
  }

  /** How many byte blocks the bytes off..off+n lie in. */
  function Spanned(off: nat, n: nat): (k: nat) { if n == 0 then 0 else (off + n - 1) / BSIZE - off / BSIZE + 1 }

  /** Since l0 only map blocks, the indirect block and the data blocks have been logged. */
  ghost predicate LoggedFor(sb: Super, l0: set<nat>, l: set<nat>, addrs: seq<U32>, data: set<nat>) {
    |addrs| == NDIRECT + 1 && l <= l0 + MapBlocks(sb) + IndirectOf(addrs) + data
  }

  /** No address the inode had is lost. */
  ghost predicate KeptAddrs(a1: seq<U32>, a2: seq<U32>) {
    |a1| == |a2| == NDIRECT + 1 && forall k :: 0 <= k <= NDIRECT && a1[k] != 0 ==> a2[k] == a1[k]
  }

  /** An inode's size and new addresses are all that may have changed. */
  ghost predicate OnlyGrown(d0: Dinode, d: Dinode, end: nat) {
    && d == d0.(size := d.size, addrs := d.addrs) && d.size == (if end > d0.size then end else d0.size)
    && KeptAddrs(d0.addrs, d.addrs)
  }

  lemma KeptTrans(a1: seq<U32>, a2: seq<U32>, a3: seq<U32>)
    requires KeptAddrs(a1, a2) && KeptAddrs(a2, a3)
    ensures KeptAddrs(a1, a3)
  {}

  /** Nothing is written past the log: every block that has changed has been given to log_write. */
  ghost predicate Covered(b0: Disk, l0: set<nat>, b: Disk, l: set<nat>) {
    |b| == |b0| && l0 <= l && forall c: nat :: c < |b0| && b[c] != b0[c] ==> c in l
  }

  lemma CoveredTrans(b0: Disk, l0: set<nat>, b1: Disk, l1: set<nat>, b2: Disk, l2: set<nat>)
    requires Covered(b0, l0, b1, l1) && Covered(b1, l1, b2, l2)
    ensures Covered(b0, l0, b2, l2)
  {}

  lemma CoveredOne(b: Disk, l: set<nat>, c: nat, x: Block)
    requires c < |b|
    ensures Covered(b, l, b, l) && Covered(b, l, b[c := x], l + {c})
  {}

  lemma CoveredRefl(b: Disk, l: set<nat>)
    ensures Covered(b, l, b, l)
  {}

  lemma LoggedNothing(sb: Super, l0: set<nat>, addrs: seq<U32>)
    requires |addrs| == NDIRECT + 1
    ensures LoggedFor(sb, l0, l0, addrs, {})
  {}

  lemma LoggedMapBlock(sb: Super, b: nat)
    requires b < sb.size
    ensures BBlock(sb, b) in MapBlocks(sb)
  {}

  lemma LoggedThen(sb: Super, l0: set<nat>, l1: set<nat>, l2: set<nat>, a1: seq<U32>, a2: seq<U32>,
                   d1: set<nat>, d2: set<nat>)
    requires LoggedFor(sb, l0, l1, a1, d1) && LoggedFor(sb, l1, l2, a2, d2)
    requires KeptAddrs(a1, a2)
    ensures LoggedFor(sb, l0, l2, a2, d1 + d2)
  {}

  lemma SpannedNothing(off: nat)
    ensures Spanned(off, 0) == 0
  {}

  /** A round of writei's loop ends at a block boundary or at the end of the write. */
  lemma SpannedStep(off: nat, tot: nat, m: nat, n: nat)
    requires tot < n && tot + m <= n && (tot > 0 ==> (off + tot) % BSIZE == 0)
    requires m == if n - tot < BSIZE - (off + tot) % BSIZE then n - tot else BSIZE - (off + tot) % BSIZE
    ensures Spanned(off, tot + m) == Spanned(off, tot) + 1
    ensures tot + m < n ==> (off + tot + m) % BSIZE == 0
  {}

  /** Where the next round of writei's loop writes. */
  lemma SpannedEnds(off: nat, tot: nat, n: nat)
    requires tot < n && (tot > 0 ==> (off + tot) % BSIZE == 0)
    ensures off / BSIZE + Spanned(off, tot) == (off + tot) / BSIZE && Spanned(off, tot) + 1 <= Spanned(off, n)
  {}

  /** The places that n bytes from off on lie in and that name no block yet. */
  ghost function Needed(b: Disk, t: seq<Dinode>, inum: nat, off: nat, n: nat): (r: set<Slot>)
    requires IsTable(t) && inum < |t|
    ensures forall s :: s in r <==>
      && IsSlot(t, s) && Named(b, t, s) == 0
      && Reaches(inum, off / BSIZE, off / BSIZE + Spanned(off, n), s)
  {
    Lacking(b, t, inum, off / BSIZE, off / BSIZE + Spanned(off, n))
  }

  /** From b0 and t0, blocks have been found for the bytes off up to off + n, and for nothing else. */
  ghost predicate Supplied(sb: Super, b0: Disk, t0: seq<Dinode>, b: Disk, t: seq<Dinode>, inum: nat, off: nat, n: nat) {
    Provided(sb, b0, t0, b, t, inum, off / BSIZE, off / BSIZE + Spanned(off, n))
  }

  lemma SuppliedNothing(sb: Super, b: Disk, t: seq<Dinode>, inum: nat, off: nat)
    requires IsTable(t) && inum < |t|
    ensures Supplied(sb, b, t, b, t, inum, off, 0)
  {
    ProvidedNothing(sb, b, t, inum, off / BSIZE);
  }

  /** What writei's next round needs is part of what the whole write needs. */
  lemma SuppliedFails(sb: Super, b0: Disk, t0: seq<Dinode>, b: Disk, t: seq<Dinode>, inum: nat, off: nat, tot: nat,
                      n: nat)
    requires Supplied(sb, b0, t0, b, t, inum, off, tot) && tot < n && (tot > 0 ==> (off + tot) % BSIZE == 0)
    requires var bn := (off + tot) / BSIZE; |Lacking(b, t, inum, bn, bn + 1)| > |FreeBlocks(sb, b)|
    ensures |Needed(b0, t0, inum, off, n)| > |FreeBlocks(sb, b0)|
  {
    hide Provided, Lacking, FreeBlocks;
    SpannedEnds(off, tot, n);
    var lo := off / BSIZE;
    LackingNext(sb, b0, t0, b, t, inum, lo, lo + Spanned(off, tot), lo + Spanned(off, n));
  }

  lemma SuppliedNext(sb: Super, b0: Disk, t0: seq<Dinode>, b1: Disk, t1: seq<Dinode>, b2: Disk, t2: seq<Dinode>,
                     inum: nat, off: nat, tot: nat, m: nat, n: nat)
    requires Supplied(sb, b0, t0, b1, t1, inum, off, tot) && tot < n && (tot > 0 ==> (off + tot) % BSIZE == 0)
    requires m == if n - tot < BSIZE - (off + tot) % BSIZE then n - tot else BSIZE - (off + tot) % BSIZE
    requires var bn := (off + tot) / BSIZE; Provided(sb, b1, t1, b2, t2, inum, bn, bn + 1)
    ensures Supplied(sb, b0, t0, b2, t2, inum, off, tot + m)
  {
    hide Provided;
    SpannedEnds(off, tot, n);
    SpannedStep(off, tot, m, n);
    var lo, k := off / BSIZE, Spanned(off, tot);
    ProvidedThen(sb, b0, t0, b1, t1, b2, t2, inum, lo, lo + k, lo + k, lo + k + 1);
  }

  lemma SuppliedSame(sb: Super, b0: Disk, t0: seq<Dinode>, b: Disk, t: seq<Dinode>, b': Disk, t': seq<Dinode>,
                     owner: map<nat, Slot>, inum: nat, off: nat, n: nat)
    requires Supplied(sb, b0, t0, b, t, inum, off, n)
    requires Owned(sb, b, t, owner, {}) && Owned(sb, b', t', owner, {}) && |t'| == |t| && IsTable(t')
    ensures Supplied(sb, b0, t0, b', t', inum, off, n)
  {
    hide Owned, Provided;
    ProvidedSame(sb, b0, t0, b, t, b', t', owner, inum, off / BSIZE, off / BSIZE + Spanned(off, n));
  }

  lemma NeededIs(b: Disk, t: seq<Dinode>, inum: nat, off: nat, n: nat)
    requires IsTable(t) && inum < |t|
    ensures Needed(b, t, inum, off, n) == Lacking(b, t, inum, off / BSIZE, off / BSIZE + Spanned(off, n))
  {}

  lemma SuppliedIs(sb: Super, b0: Disk, t0: seq<Dinode>, b: Disk, t: seq<Dinode>, inum: nat, off: nat, n: nat)
    requires Supplied(sb, b0, t0, b, t, inum, off, n)
    ensures IsTable(t0) && IsTable(t) && inum < |t0| == |t|
    ensures Filled(b0, t0, b, t, inum, off / BSIZE, off / BSIZE + Spanned(off, n))
    ensures |FreeBlocks(sb, b)|
      == |FreeBlocks(sb, b0)| - |Lacking(b0, t0, inum, off / BSIZE, off / BSIZE + Spanned(off, n))|
  {
    hide Filled, Lacking, FreeBlocks;
  }

  lemma SuppliedEnough(sb: Super, b0: Disk, t0: seq<Dinode>, b: Disk, t: seq<Dinode>, inum: nat, off: nat, n: nat)
    requires Supplied(sb, b0, t0, b, t, inum, off, n)
    ensures IsTable(t0) && inum < |t0| && |Needed(b0, t0, inum, off, n)| <= |FreeBlocks(sb, b0)|
    ensures |FreeBlocks(sb, b)| == |FreeBlocks(sb, b0)| - |Needed(b0, t0, inum, off, n)|
  {}

  /** The number of blocks a write logs: the map blocks, the indirect block, the inode's block and
      the blocks its bytes lie in. */
  lemma LoggedCount(sb: Super, l0: set<nat>, l1: set<nat>, l2: set<nat>, addrs: seq<U32>, data: set<nat>, m: nat)
    requires LoggedFor(sb, l0, l1, addrs, data) && l2 <= l1 + {m}
    ensures |l2 - l0| <= |MapBlocks(sb)| + 2 + |data|
  {
    hide MapBlocks;
    var ind := IndirectOf(addrs);
    SubsetSize(l2 - l0, MapBlocks(sb) + ind + data + {m});
    UnionSize(MapBlocks(sb) + ind + data, {m});
    UnionSize(MapBlocks(sb) + ind, data);
    UnionSize(MapBlocks(sb), ind);
  }

  /** From b0 and t0, file inum has got the bytes at off: it is as long as it has to be and otherwise the
      inode it was, no other file or inode has changed, and blocks have been found for these bytes only. */
  ghost predicate Wrote(sb: Super, b0: Disk, t0: seq<Dinode>, b: Disk, t: seq<Dinode>, inum: nat, off: nat,
                        src: seq<Byte>) {
    && IsTable(t0) && IsTable(t) && inum < |t| == |t0| && off <= t0[inum].size
    && (forall i :: 0 <= i < |t| ==> t0[i].size <= MAXFILE * BSIZE && t[i].size <= MAXFILE * BSIZE)
    && Contents(b, t[inum]) == Spliced(Contents(b0, t0[inum]), off, src)
    && (forall i :: 0 <= i < |t| && i != inum ==> t[i] == t0[i] && Contents(b, t[i]) == Contents(b0, t0[i]))
    && OnlyGrown(t0[inum], t[inum], off + |src|)
    && KeepsAddrs(b0, t0, b, t) && Supplied(sb, b0, t0, b, t, inum, off, |src|)
  }

  lemma AllFit(b: Disk, t: seq<Dinode>)
    requires IsTable(t) && AllSized(b, t)
    ensures forall i :: 0 <= i < |t| ==> t[i].size <= MAXFILE * BSIZE
  {
    forall i | 0 <= i < |t| ensures t[i].size <= MAXFILE * BSIZE { assert Sized(b, t[i]); }
  }

  lemma WroteAll(sb: Super, b0: Disk, t0: seq<Dinode>, b: Disk, t: seq<Dinode>, inum: nat, off: nat, src: seq<Byte>)
    requires IsTable(t0) && IsTable(t) && inum < |t| == |t0| && off <= t0[inum].size
    requires AllSized(b0, t0) && AllSized(b, t) && OnlyGrown(t0[inum], t[inum], off + |src|)
    requires t0[inum].size <= MAXFILE * BSIZE && t[inum].size <= MAXFILE * BSIZE
    requires Contents(b, t[inum]) == Spliced(Contents(b0, t0[inum]), off, src)
    requires forall i :: 0 <= i < |t| && i != inum ==>
      && t0[i].size <= MAXFILE * BSIZE && t[i].size <= MAXFILE * BSIZE
      && t[i] == t0[i] && Contents(b, t[i]) == Contents(b0, t0[i])
    requires KeepsAddrs(b0, t0, b, t) && Supplied(sb, b0, t0, b, t, inum, off, |src|)
    ensures Wrote(sb, b0, t0, b, t, inum, off, src)
  {
    hide AllSized, OnlyGrown, Contents, KeepsAddrs, Supplied, Spliced;
    AllFit(b0, t0);
    AllFit(b, t);
  }

  /** A write that has not grown the file. */
  lemma WroteInside(sb: Super, b0: Disk, t0: seq<Dinode>, b: Disk, t: seq<Dinode>, inum: nat, off: nat, src: seq<Byte>)
    requires Geometry(sb, b0, t0) && IsTable(t) && inum < |t| == |t0|
    requires AllSized(b0, t0) && Synced(sb, b0, t0, -1)
    requires Writing(sb, b0, t0, b, t, inum, off, src, |src|)
    requires off + |src| <= t0[inum].size && Supplied(sb, b0, t0, b, t, inum, off, |src|)
    ensures t == t0 && AllSized(b, t) && Synced(sb, b, t, -1) && Wrote(sb, b0, t0, b, t, inum, off, src)
  {
    assert KeepsAddrs(b0, t0, b, t);
    hide AllSized, Synced, Contents, KeepsAddrs, Supplied, Writing, Wrote, Spliced;
    AllFit(b0, t0);
    WritingDone(sb, b0, t0, b, t, inum, off, src);
    assert KeptAddrs(t0[inum].addrs, t[inum].addrs);
    WroteAll(sb, b0, t0, b, t, inum, off, src);
  }

  /** No file has other bytes, no place names another block than it did, no disk inode has changed, and
      what has changed has been given to log_write. */
  ghost predicate Preserved(sb: Super, b0: Disk, t0: seq<Dinode>, l0: set<nat>, b: Disk, t: seq<Dinode>, l: set<nat>) {
    && IsTable(t0) && IsTable(t) && SameFiles(b0, t0, b, t) && KeepsAddrs(b0, t0, b, t) && SameInodeBlocks(sb, b0, b)
    && Covered(b0, l0, b, l)
  }

  lemma PreservedRefl(sb: Super, b: Disk, t: seq<Dinode>, l: set<nat>)
    requires IsTable(t)
    ensures Preserved(sb, b, t, l, b, t, l)
  {
    FilesRefl(b, t);
    CoveredRefl(b, l);
    SameInodesTrans(sb, b, b, b);
  }

  lemma PreservedThen(sb: Super, b0: Disk, t0: seq<Dinode>, l0: set<nat>, b1: Disk, t1: seq<Dinode>, l1: set<nat>,
                      b2: Disk, t2: seq<Dinode>, l2: set<nat>)
    requires Preserved(sb, b0, t0, l0, b1, t1, l1) && Preserved(sb, b1, t1, l1, b2, t2, l2)
    ensures Preserved(sb, b0, t0, l0, b2, t2, l2)
  {
    hide SameFiles, KeepsAddrs, SameInodeBlocks, Covered;
    FilesTrans(b0, t0, b1, t1, b2, t2);
    CoveredTrans(b0, l0, b1, l1, b2, l2);
    SameInodesTrans(sb, b0, b1, b2);
  }

  class FileSystem {
    const sb: Super
    var blocks: Disk
    ghost var logged: set<nat>            // the blocks given to log_write since begin_op
    ghost var table: seq<Dinode>          // the current inodes
    ghost var owner: map<nat, Slot>       // the slot naming each owned block

    ghost predicate Sound(extra: set<nat>)
      reads this
    {
      Owned(sb, blocks, table, owner, extra)
    }

    /** Between system calls: ownership exact, no block in limbo, files allocated up to their size,
        disk inodes up to date. */
    ghost predicate Valid()
      reads this
    {
      Sound({}) && AllSized(blocks, table) && Synced(sb, blocks, table, -1)
    }

    /** The locked inode is the table's. */
    ghost predicate Mirrors(ip: Inode)
      reads this, ip, ip.addrs
    {
      ip.inum < |table| && ip.Value() == table[ip.inum]
    }

    ghost predicate MapFull()
      reads this
    {
      forall b: nat :: b < sb.size ==> Used(sb, blocks, b)
    }

    /** Only the addresses of inode inum may differ from those in t. */
    ghost predicate AddrsOnly(t: seq<Dinode>, inum: nat)
      reads this
    {
      && inum < |t| == |table|
      && (forall i :: 0 <= i < |t| && i != inum ==> table[i] == t[i])
      && table[inum] == t[inum].(addrs := table[inum].addrs)
    }

    constructor (sb: Super, image: Disk, ghost t: seq<Dinode>, ghost owner: map<nat, Slot>)
      requires Owned(sb, image, t, owner, {}) && AllSized(image, t) && Synced(sb, image, t, -1)
      ensures Valid() && this.sb == sb && blocks == image && table == t && this.owner == owner && logged == {}
    {
      this.sb, this.blocks, this.table, this.owner, this.logged := sb, image, t, owner, {};
    }

    /** begin_op: nothing is logged yet. */
    method Begin(ip: Inode)
      requires Valid() && Mirrors(ip)
      modifies this`logged
      ensures Valid() && Mirrors(ip) && logged == {}
    {
      logged := {};
    }

    /** balloc: the lowest free block, marked in the map and zeroed. None is
        panic("balloc: out of blocks"). */
    method Balloc(ghost extra: set<nat>) returns (r: Option<U32>)
      requires Sound(extra)
      modifies this`blocks, this`logged
      ensures logged == old(logged) + if r.Some? then {BBlock(sb, r.value), r.value as nat} else {}
      ensures Covered(old(blocks), old(logged), blocks, logged)
      ensures r.None? <==> forall b: nat :: b < sb.size ==> Used(sb, old(blocks), b)
      ensures r.None? ==> blocks == old(blocks)
      ensures r.Some? ==>
        && r.value < sb.size && !Used(sb, old(blocks), r.value)
        && (forall b: nat :: b < r.value ==> Used(sb, old(blocks), b))
        && BBlock(sb, r.value) < |old(blocks)|
        && blocks == MarkUsed(sb, old(blocks), r.value)[r.value := ZeroBlock()]
    {
      OwnedRange(sb, blocks, table, owner, extra);
      hide Owned, BitIn;
      var b := 0;
      while b < sb.size
        invariant b % BPB == 0 && blocks == old(blocks) && logged == old(logged)
        invariant forall c: nat :: c < b && c < sb.size ==> Used(sb, blocks, c)
        decreases sb.size - b
      {
        MapBlocksAreMetadata(sb, blocks, table, b);
        r := ScanMapBlock(b);
        if r.Some? { return; }
        b := b + BPB;
      }
      r := None;
    }

    /** balloc's inner loop, over the bits of the map block for blocks b and up. */
    method ScanMapBlock(b: nat) returns (r: Option<U32>)
      requires b % BPB == 0 && b < sb.size <= |blocks| && sb.size < TWO32 && BBlock(sb, b) < |blocks|
      modifies this`blocks, this`logged
      ensures logged == old(logged) + if r.Some? then {BBlock(sb, r.value), r.value as nat} else {}
      ensures Covered(old(blocks), old(logged), blocks, logged)
      ensures r.None? ==>
        blocks == old(blocks) && forall c: nat :: b <= c < b + BPB && c < sb.size ==> Used(sb, blocks, c)
      ensures r.Some? ==>
        && b <= r.value < b + BPB && r.value < sb.size && BBlock(sb, r.value) < |old(blocks)|
           && !Used(sb, old(blocks), r.value)
        && (forall c: nat :: b <= c < r.value ==> Used(sb, old(blocks), c))
        && blocks == MarkUsed(sb, old(blocks), r.value)[r.value := ZeroBlock()]
    {
      hide BitIn;
      var bp := blocks[BBlock(sb, b)];
      var bi := 0;
      while bi < BPB && b + bi < sb.size
        invariant bi <= BPB && blocks == old(blocks) && logged == old(logged)
        invariant forall c: nat :: b <= c < b + bi && c < sb.size ==> Used(sb, blocks, c)
        decreases BPB - bi
      {
        BitPlace(sb, b, bi);
        if !BitIn(bp, bi) {
          assert !Used(sb, blocks, b + bi);
          blocks := blocks[BBlock(sb, b) := SetBitIn(bp, bi)];
          blocks := blocks[b + bi := ZeroBlock()];
          logged := logged + {BBlock(sb, b), b + bi};
          return Some(b + bi);
        }
        assert Used(sb, blocks, b + bi);
        bi := bi + 1;
      }
      r := None;
    }

    /** bfree. Not ok is panic("freeing free block"). */
    method Bfree(b: nat) returns (ok: bool)
      requires Geometry(sb, blocks, table) && b < sb.size
      modifies this`blocks, this`logged
      ensures ok <==> Used(sb, old(blocks), b)
      ensures logged == old(logged) + if ok then {BBlock(sb, b)} else {}
      ensures Covered(old(blocks), old(logged), blocks, logged)
      ensures BBlock(sb, b) < |old(blocks)|
      ensures blocks == if ok then MarkFree(sb, old(blocks), b) else old(blocks)
    {
      MapBlocksAreMetadata(sb, blocks, table, b);
      var bp := blocks[BBlock(sb, b)];
      var bi := b % BPB;
      if !BitIn(bp, bi) { return false; }
      blocks := blocks[BBlock(sb, b) := ClearBitIn(bp, bi)];
      logged := logged + {BBlock(sb, b)};
      ok := true;
    }

    /** iupdate: the memory inode goes to its disk inode. */
    method Iupdate(ip: Inode)
      requires Sound({}) && Synced(sb, blocks, table, ip.inum) && Mirrors(ip)
      modifies this`blocks, this`logged
      ensures Sound({}) && Synced(sb, blocks, table, -1) && logged == old(logged) + {IBlock(sb, ip.inum)}
      ensures Covered(old(blocks), old(logged), blocks, logged)
      ensures SameFiles(old(blocks), table, blocks, table) && KeepsAddrs(old(blocks), table, blocks, table)
    {
      OwnedRange(sb, blocks, table, owner, {});
      InodeStored(sb, blocks, table, ip.inum, ip.Value());
      var m := IBlock(sb, ip.inum);
      var d := Dinode(ip.kind, ip.major, ip.minor, ip.nlink, ip.size, ip.addrs[..]);
      hide Owned, Synced, SameFiles, KeepsAddrs;
      MetadataKeeps(sb, blocks, table, owner, {}, m, PutDinode(blocks[m], ip.inum % IPB, d));
      blocks := blocks[m := PutDinode(blocks[m], ip.inum % IPB, d)];
      logged := logged + {m};
    }

    /** balloc and the store of the address in slot k of the inode: one new block of zeros. */
    method BallocAddr(ip: Inode, k: nat) returns (r: Option<U32>)
      requires Sound({}) && Mirrors(ip) && k <= NDIRECT && ip.addrs[..][k] == 0
      modifies this, ip.addrs
      ensures r.None? ==> MapFull()
      ensures r.None? <==> |FreeBlocks(sb, old(blocks))| == 0
      ensures r.Some? ==> Took(sb, old(blocks), old(table), blocks, table, {AddrSlot(ip.inum, k)})
      ensures r.Some? ==>
        && Sound({}) && Mirrors(ip) && AddrsOnly(old(table), ip.inum)
        && r.value != 0 && r.value < sb.size && ip.addrs[..] == old(ip.addrs[..])[k := r.value]
        && logged == old(logged) + {BBlock(sb, r.value), r.value as nat}
        && Preserved(sb, old(blocks), old(table), old(logged), blocks, table, logged)
    {
      NoneFreeIff(sb, blocks);
      r := Balloc({});
      if r.None? { return; }
      hide *;
      AllocAddr(sb, old(blocks), table, owner, ip.inum, k, r.value);
      owner := owner[r.value := AddrSlot(ip.inum, k)];
      table := SetAddr(table, ip.inum, k, r.value);
      ip.addrs[k] := r.value;
      assert ip.addrs[..] == old(ip.addrs[..])[k := r.value];
      AddrTaken(sb, old(blocks), old(table), old(owner), blocks, table, ip.inum, k, r.value);
    }

    /** a[j] = balloc() in the inode's indirect block, and log_write of that block. */
    method BallocEntry(ip: Inode, j: nat) returns (r: Option<U32>)
      requires Sound({}) && Mirrors(ip) && j < NINDIRECT
      requires ip.addrs[..][NDIRECT] != 0 && EntryOf(blocks, table[ip.inum], j) == 0
      modifies this
      ensures r.None? ==> MapFull()
      ensures r.None? <==> |FreeBlocks(sb, old(blocks))| == 0
      ensures r.Some? ==> Took(sb, old(blocks), old(table), blocks, table, {Entry(ip.inum, j)})
      ensures r.Some? ==>
        && Sound({}) && Mirrors(ip) && table == old(table)
        && r.value < sb.size && logged == old(logged) + {BBlock(sb, r.value), r.value as nat, ip.addrs[NDIRECT] as nat}
        && r.value != 0 && EntryOf(blocks, table[ip.inum], j) == r.value
        && Preserved(sb, old(blocks), old(table), old(logged), blocks, table, logged)
    {
      hide Owned, Used, SameFiles, KeepsAddrs, SameInodeBlocks, Took, FreeBlocks;
      OwnedRange(sb, blocks, table, owner, {});
      NamedOwner(sb, blocks, table, owner, {}, Indirect(ip.inum));
      NoneFreeIff(sb, blocks);
      var ind := ip.addrs[NDIRECT];
      r := Balloc({});
      if r.None? { return; }
      hide *;
      AllocEntry(sb, old(blocks), table, owner, ip.inum, j, r.value);
      ghost var b1, l1 := blocks, logged;
      CoveredOne(b1, l1, ind, PutWord(blocks[ind], j, r.value));
      blocks := blocks[ind := PutWord(blocks[ind], j, r.value)];
      logged := logged + {ind as nat};
      CoveredTrans(old(blocks), old(logged), b1, l1, blocks, logged);
      owner := owner[r.value := Entry(ip.inum, j)];
      EntryTaken(sb, old(blocks), table, old(owner), blocks, ip.inum, j, r.value);
    }

    /** bmap: the disk block of byte block bn of the file, allocated if there was none. None is a
        panic: bn is out of range, or too few blocks are free for it and an indirect block. No other
        place of any file gets a block. */
    method Bmap(ip: Inode, bn: nat) returns (r: Option<U32>)
      requires Sound({}) && Mirrors(ip)
      modifies this, ip.addrs
      ensures r.None? ==> bn >= MAXFILE || MapFull()
      ensures r.Some? ==>
        && bn < MAXFILE && Sound({}) && Mirrors(ip) && AddrsOnly(old(table), ip.inum)
        && r.value == Addr(blocks, table[ip.inum], bn) != 0
        && Preserved(sb, old(blocks), old(table), old(logged), blocks, table, logged)
        && LoggedFor(sb, old(logged), logged, ip.addrs[..], {r.value as nat})
        && KeptAddrs(old(ip.addrs[..]), ip.addrs[..])
        && Provided(sb, old(blocks), old(table), blocks, table, ip.inum, bn, bn + 1)
      ensures bn < MAXFILE && Addr(old(blocks), old(table)[ip.inum], bn) != 0 ==>
        r.Some? && blocks == old(blocks) && table == old(table)
      ensures r.Some? <==>
        bn < MAXFILE && |Lacking(old(blocks), old(table), ip.inum, bn, bn + 1)| <= |FreeBlocks(sb, old(blocks))|
    {
      hide Owned, Used, Preserved, MapBlocks, Took, Provided, Lacking, FreeBlocks;
      OwnedRange(sb, blocks, table, owner, {});
      PreservedRefl(sb, blocks, table, logged);
      TookNothing(sb, blocks, table);
      if bn < NDIRECT {
        LackingOne(blocks, table, ip.inum, bn);
        ghost var need: set<Slot> := {};
        r := Some(ip.addrs[bn]);
        if r.value == 0 {
          need := {Direct(ip.inum, bn)};
          r := BallocAddr(ip, bn);
          if r.None? { return; }
          LoggedMapBlock(sb, r.value);
        }
        TookProvides(sb, old(blocks), old(table), blocks, table, need, ip.inum, bn, bn + 1);
        return;
      }
      if bn - NDIRECT < NINDIRECT {
        r := BmapEntry(ip, bn);
        return;
      }
      r := None;
    }

    /** bmap's second half, through the indirect block. */
    method BmapEntry(ip: Inode, bn: nat) returns (r: Option<U32>)
      requires Sound({}) && Mirrors(ip) && NDIRECT <= bn < MAXFILE
      modifies this, ip.addrs
      ensures r.None? ==> MapFull()
      ensures r.Some? ==>
        && Sound({}) && Mirrors(ip) && AddrsOnly(old(table), ip.inum)
        && r.value == Addr(blocks, table[ip.inum], bn) != 0
        && Preserved(sb, old(blocks), old(table), old(logged), blocks, table, logged)
        && LoggedFor(sb, old(logged), logged, ip.addrs[..], {r.value as nat})
        && KeptAddrs(old(ip.addrs[..]), ip.addrs[..])
        && Provided(sb, old(blocks), old(table), blocks, table, ip.inum, bn, bn + 1)
      ensures Addr(old(blocks), old(table)[ip.inum], bn) != 0 ==>
        r.Some? && blocks == old(blocks) && table == old(table)
      ensures r.Some? <==>
        |Lacking(old(blocks), old(table), ip.inum, bn, bn + 1)| <= |FreeBlocks(sb, old(blocks))|
    {
      hide Owned, Used, Preserved, MapBlocks, Took, Provided, Lacking, FreeBlocks;
      OwnedRange(sb, blocks, table, owner, {});
      PreservedRefl(sb, blocks, table, logged);
      TookNothing(sb, blocks, table);
      LackingOne(blocks, table, ip.inum, bn);
      ghost var need: set<Slot> := {};
      var j := bn - NDIRECT;
      if ip.addrs[NDIRECT] == 0 {
        need := {Indirect(ip.inum)};
        var a := BallocAddr(ip, NDIRECT);
        if a.None? { return None; }
        LoggedMapBlock(sb, a.value);
      }
      NamedOwner(sb, blocks, table, owner, {}, Indirect(ip.inum));
      var addr := Word(blocks[ip.addrs[NDIRECT]], j);
      assert addr == EntryOf(blocks, table[ip.inum], j);
      ghost var b1, t1, l1 := blocks, table, logged;
      StillLacking(sb, old(blocks), old(table), b1, t1, need, Entry(ip.inum, j));
      if addr == 0 {
        r := BallocEntry(ip, j);
        if r.None? { return; }
        PreservedThen(sb, old(blocks), old(table), old(logged), b1, t1, l1, blocks, table, logged);
        TookBoth(sb, old(blocks), old(table), b1, t1, blocks, table, need, {Entry(ip.inum, j)});
        need := need + {Entry(ip.inum, j)};
        LoggedMapBlock(sb, r.value);
      } else {
        r := Some(addr);
      }
      TookProvides(sb, old(blocks), old(table), blocks, table, need, ip.inum, bn, bn + 1);
    }

    /** readi. -1 if off is past the end or off + n wraps; otherwise the slice off..off+n clipped to
        the size lands in dst, and nothing else changes. Devices are not modelled. */
    method Readi(ip: Inode, dst: array<Byte>, off: U32, n: U32) returns (r: int)
      requires Sound({}) && Mirrors(ip) && Sized(blocks, table[ip.inum]) && n <= dst.Length
      requires dst as object != ip.addrs
      modifies this, ip.addrs, dst
      ensures Sound({}) && Mirrors(ip) && blocks == old(blocks) && table == old(table)
      ensures r == if off > ip.size || (off + n) % TWO32 < off then -1
                   else if off + n > ip.size then ip.size - off else n
      ensures r >= 0 ==> dst[..] == Contents(blocks, table[ip.inum])[off..off + r] + old(dst[..])[r..]
      ensures r < 0 ==> dst[..] == old(dst[..])
    {
      hide Owned, Sized, ReadSoFar, Contents;
      OwnedRange(sb, blocks, table, owner, {});
      SizedFits(blocks, table[ip.inum]);
      if off > ip.size || (off + n) % TWO32 < off { return -1; }
      var len: nat := n;
      if off + n > ip.size { len := ip.size - off; }
      ghost var d := table[ip.inum];
      ReadNothing(blocks, d, off, dst[..]);
      var tot: nat := 0;
      while tot < len
        invariant tot <= len
        invariant Sound({}) && Mirrors(ip) && blocks == old(blocks) && table == old(table)
        invariant ReadSoFar(blocks, d, off, dst[..], tot)
        invariant dst[tot..] == old(dst[tot..])
      {
        ghost var was := dst[..];
        var m := ReadBlock(ip, dst, off, tot, len);
        assert dst[tot + m..] == was[tot..][m..];
        tot := tot + m;
      }
      r := len;
      ReadAll(blocks, d, off, dst[..], len);
    }

    /** One round of readi's loop. */
    method ReadBlock(ip: Inode, dst: array<Byte>, off: nat, tot: nat, len: nat) returns (m: nat)
      requires Sound({}) && Mirrors(ip) && Sized(blocks, table[ip.inum])
      requires dst as object != ip.addrs
      requires tot < len <= dst.Length && off + len <= ip.size
      requires ReadSoFar(blocks, table[ip.inum], off, dst[..], tot)
      modifies this, ip.addrs, dst
      ensures Sound({}) && Mirrors(ip) && blocks == old(blocks) && table == old(table)
      ensures m > 0 && tot + m <= len
      ensures ReadSoFar(blocks, table[ip.inum], off, dst[..], tot + m)
      ensures dst[tot + m..] == old(dst[tot + m..])
    {
      hide Owned, Sized, Addr, SameFiles, KeepsAddrs;
      var cur := off + tot;
      AllocatedBelow(blocks, table[ip.inum], cur);
      var a := Bmap(ip, cur / BSIZE);
      InRangeAddr(sb, blocks, table, owner, ip.inum, cur / BSIZE);
      var k := cur % BSIZE;
      m := if len - tot < BSIZE - k then len - tot else BSIZE - k;
      ghost var was := dst[..];
      var bp := blocks[a.value];
      forall i | 0 <= i < m {
        dst[tot + i] := bp[k + i];
      }
      ReadStep(blocks, table[ip.inum], off, was, dst[..], tot, m);
    }

    /** One round of writei's loop: bmap, memmove, log_write. Not ok is balloc's panic. */
    method WriteBlock(ip: Inode, src: seq<Byte>, off: nat, tot: nat, ghost b0: Disk, ghost t0: seq<Dinode>)
      returns (ok: bool, m: nat, ghost data: set<nat>)
      requires Sound({}) && Mirrors(ip) && AddrsOnly(t0, ip.inum) && IsTable(t0) && IsTable(table)
      requires tot < |src| && off + |src| <= MAXFILE * BSIZE
      requires Sized(b0, t0[ip.inum]) && Writing(sb, b0, t0, blocks, table, ip.inum, off, src, tot)
      modifies this, ip.addrs
      ensures !ok ==> MapFull()
      ensures ok ==>
        && Sound({}) && Mirrors(ip) && AddrsOnly(t0, ip.inum) && IsTable(table)
        && m > 0 && tot + m <= |src|
        && m == (if |src| - tot < BSIZE - (off + tot) % BSIZE then |src| - tot else BSIZE - (off + tot) % BSIZE)
        && Writing(sb, b0, t0, blocks, table, ip.inum, off, src, tot + m)
      ensures ok ==>
        && LoggedFor(sb, old(logged), logged, ip.addrs[..], data) && |data| <= 1
        && KeptAddrs(old(ip.addrs[..]), ip.addrs[..]) && Covered(old(blocks), old(logged), blocks, logged)
      ensures ok <==> var bn := (off + tot) / BSIZE;
        |Lacking(old(blocks), old(table), ip.inum, bn, bn + 1)| <= |FreeBlocks(sb, old(blocks))|
      ensures ok ==> var bn := (off + tot) / BSIZE;
        Provided(sb, old(blocks), old(table), blocks, table, ip.inum, bn, bn + 1)
    {
      hide Owned, MapBlocks, SameFiles, KeepsAddrs, FileByte, OneBlockChanged, Addr, Sized, Used, Writing, Patched,
        SameInodeBlocks, Lacking, Provided, FreeBlocks;
      var cur := off + tot;
      var bn, k := cur / BSIZE, cur % BSIZE;
      if off + |src| <= t0[ip.inum].size {
        StillAllocated(sb, b0, t0, blocks, table, ip.inum, off, src, tot);
      }
      var a := Bmap(ip, bn);
      if a.None? { return false, 0, {}; }
      ok := true;
      OwnedRange(sb, blocks, table, owner, {});
      InRangeAddr(sb, blocks, table, owner, ip.inum, bn);
      m := if |src| - tot < BSIZE - k then |src| - tot else BSIZE - k;
      ghost var b1 := blocks;
      var c := Patched(blocks[a.value], k, src[tot..tot + m]);
      DataKeeps(sb, blocks, table, owner, {}, ip.inum, bn, c);
      SameInodesAfter(sb, blocks, table, a.value, c);
      blocks := blocks[a.value := c];
      data := {a.value as nat};
      logged := logged + data;
      ProvidedSame(sb, old(blocks), old(table), b1, table, blocks, table, owner, ip.inum, bn, bn + 1);
      WriteStep(sb, b0, t0, old(blocks), old(table), b1, table, blocks, ip.inum, off, src, tot, m);
    }

    /** writei. -1 if off is past the end, off + n wraps or the file would be too big; None is
        balloc's panic, exactly if fewer blocks are free than the bytes need. Otherwise the file has
        got the bytes and the disk inode is up to date. Devices are not modelled. */
    method Writei(ip: Inode, src: seq<Byte>, off: U32) returns (r: Option<int>)
      requires Valid() && Mirrors(ip) && |src| < TWO32
      modifies this, ip, ip.addrs
      ensures IsTable(old(table)) && ip.inum < |old(table)|
      ensures var end := (off + |src|) % TWO32;
        var refused := off > old(ip.size) || end < off || end > MAXFILE * BSIZE;
        && (refused <==> r == Some(-1))
        && (r.Some? && !refused ==> r.value == |src|)
        && (!refused ==>
              (r.None? <==> |Needed(old(blocks), old(table), ip.inum, off, |src|)| > |FreeBlocks(sb, old(blocks))|))
      ensures r.None? ==> MapFull()
      ensures r.Some? ==> Valid() && Mirrors(ip)
      ensures r.Some? && r.value < 0 ==> blocks == old(blocks) && table == old(table)
      ensures r.Some? && r.value >= 0 ==> Wrote(sb, old(blocks), old(table), blocks, table, ip.inum, off, src)
      ensures r.Some? ==> |logged - old(logged)| <= |MapBlocks(sb)| + 2 + Spanned(off, |src|)
      ensures r.Some? ==> Covered(old(blocks), old(logged), blocks, logged)
    {
      OwnedRange(sb, blocks, table, owner, {});
      assert logged - old(logged) == {};
      var n := |src|;
      hide Owned, AllSized, Synced, Needed, FreeBlocks, Wrote, MapBlocks, Spanned, Used;
      if off > ip.size || (off + n) % TWO32 < off { return Some(-1); }
      if (off + n) % TWO32 > MAXFILE * BSIZE { return Some(-1); }
      var ok := WriteAll(ip, src, off);
      r := if ok then Some(n) else None;
    }

    /** writei once its tests are passed. */
    method WriteAll(ip: Inode, src: seq<Byte>, off: nat) returns (ok: bool)
      requires Valid() && Mirrors(ip) && off <= ip.size && off + |src| <= MAXFILE * BSIZE
      modifies this, ip, ip.addrs
      ensures IsTable(old(table)) && ip.inum < |old(table)|
      ensures ok <==> |Needed(old(blocks), old(table), ip.inum, off, |src|)| <= |FreeBlocks(sb, old(blocks))|
      ensures !ok ==> MapFull()
      ensures ok ==> Valid() && Mirrors(ip)
      ensures ok ==> Wrote(sb, old(blocks), old(table), blocks, table, ip.inum, off, src)
      ensures ok ==> |logged - old(logged)| <= |MapBlocks(sb)| + 2 + Spanned(off, |src|)
      ensures ok ==> Covered(old(blocks), old(logged), blocks, logged)
    {
      OwnedRange(sb, blocks, table, owner, {});
      ghost var b0, t0 := blocks, table;
      hide Owned, KeepsAddrs, FileByte, Addr, Sized, Used, Writing, Synced, Contents, MapBlocks, LoggedFor, Spanned,
        Needed, FreeBlocks, Supplied, KeptAddrs, Wrote, AllSized;
      WritingStarts(sb, b0, t0, ip.inum, off, src);
      ghost var l0 := logged;
      ghost var data;
      ok, data := WriteBlocks(ip, src, off, b0, t0);
      if !ok { return; }
      ghost var l1, addrs := logged, ip.addrs[..];
      var end := off + |src|;
      if |src| > 0 && end > ip.size {
        ip.size := end;
        Grow(ip, off, src, b0, t0);
      } else {
        WroteInside(sb, b0, t0, blocks, table, ip.inum, off, src);
      }
      LoggedCount(sb, l0, l1, logged, addrs, data, IBlock(sb, ip.inum));
    }

    /** writei's loop. */
    method WriteBlocks(ip: Inode, src: seq<Byte>, off: nat, ghost b0: Disk, ghost t0: seq<Dinode>)
      returns (ok: bool, ghost data: set<nat>)
      requires Sound({}) && Mirrors(ip) && AddrsOnly(t0, ip.inum) && IsTable(t0) && IsTable(table)
      requires off + |src| <= MAXFILE * BSIZE
      requires Sized(b0, t0[ip.inum]) && Writing(sb, b0, t0, blocks, table, ip.inum, off, src, 0)
      requires blocks == b0 && table == t0
      modifies this, ip.addrs
      ensures !ok ==> MapFull()
      ensures ok ==> Sound({}) && Mirrors(ip) && AddrsOnly(t0, ip.inum) && IsTable(table)
      ensures ok ==> Writing(sb, b0, t0, blocks, table, ip.inum, off, src, |src|)
      ensures ok ==> LoggedFor(sb, old(logged), logged, ip.addrs[..], data) && |data| <= Spanned(off, |src|)
      ensures ok ==>
        KeptAddrs(old(ip.addrs[..]), ip.addrs[..]) && Covered(old(blocks), old(logged), blocks, logged)
      ensures ok <==> |Needed(b0, t0, ip.inum, off, |src|)| <= |FreeBlocks(sb, b0)|
      ensures ok ==> Supplied(sb, b0, t0, blocks, table, ip.inum, off, |src|)
    {
      hide Owned, KeepsAddrs, FileByte, Addr, Sized, Used, Writing, LoggedFor, Spanned, MapBlocks, Covered, Lacking,
        Provided, FreeBlocks, Needed, Supplied;
      SuppliedNothing(sb, b0, t0, ip.inum, off);
      LoggedNothing(sb, logged, ip.addrs[..]);
      CoveredRefl(blocks, logged);
      SpannedNothing(off);
      data := {};
      var tot := 0;
      while tot < |src|
        invariant tot <= |src|
        invariant Sound({}) && Mirrors(ip) && AddrsOnly(t0, ip.inum) && IsTable(table)
        invariant Writing(sb, b0, t0, blocks, table, ip.inum, off, src, tot)
        invariant LoggedFor(sb, old(logged), logged, ip.addrs[..], data) && |data| <= Spanned(off, tot)
        invariant KeptAddrs(old(ip.addrs[..]), ip.addrs[..]) && Covered(old(blocks), old(logged), blocks, logged)
        invariant 0 < tot < |src| ==> (off + tot) % BSIZE == 0
        invariant Supplied(sb, b0, t0, blocks, table, ip.inum, off, tot)
      {
        ghost var b1, t1, l1, a1 := blocks, table, logged, ip.addrs[..];
        var m;
        ghost var d;
        ok, m, d := WriteBlock(ip, src, off, tot, b0, t0);
        if !ok {
          SuppliedFails(sb, b0, t0, b1, t1, ip.inum, off, tot, |src|);
          return;
        }
        SuppliedNext(sb, b0, t0, b1, t1, blocks, table, ip.inum, off, tot, m, |src|);
        LoggedThen(sb, old(logged), l1, logged, a1, ip.addrs[..], data, d);
        KeptTrans(old(ip.addrs[..]), a1, ip.addrs[..]);
        CoveredTrans(old(blocks), old(logged), b1, l1, blocks, logged);
        SpannedStep(off, tot, m, |src|);
        UnionSize(data, d);
        data := data + d;
        tot := tot + m;
      }
      SuppliedEnough(sb, b0, t0, blocks, table, ip.inum, off, |src|);
      ok := true;
    }

    /** writei's last lines, for a write that has grown the file: the new size, and iupdate. */
    method Grow(ip: Inode, off: nat, src: seq<Byte>, ghost b0: Disk, ghost t0: seq<Dinode>)
      requires Sound({}) && AddrsOnly(t0, ip.inum) && Geometry(sb, b0, t0) && IsTable(table)
      requires AllSized(b0, t0) && Synced(sb, b0, t0, -1)
      requires Writing(sb, b0, t0, blocks, table, ip.inum, off, src, |src|)
      requires off <= t0[ip.inum].size < off + |src| == ip.size <= MAXFILE * BSIZE
      requires ip.Value() == table[ip.inum].(size := ip.size)
      requires Supplied(sb, b0, t0, blocks, table, ip.inum, off, |src|)
      requires KeptAddrs(t0[ip.inum].addrs, table[ip.inum].addrs)
      modifies this
      ensures Valid() && Mirrors(ip) && |table| == |t0| && logged == old(logged) + {IBlock(sb, ip.inum)}
      ensures table == old(table)[ip.inum := old(table)[ip.inum].(size := ip.size)]
      ensures Covered(old(blocks), old(logged), blocks, logged)
      ensures Wrote(sb, b0, t0, blocks, table, ip.inum, off, src)
    {
      hide Owned, KeepsAddrs, SameFiles, FileByte, Addr, BlockAt, Sized, Synced, Contents, Provided, Supplied,
        Spliced, Wrote, KeptAddrs;
      ghost var b1, t1 := blocks, table;
      ghost var t2 := t1[ip.inum := ip.Value()];
      SyncedStays(sb, b0, b1, t0, t2, ip.inum) by { SyncedBut(sb, b0, t0, ip.inum); }
      SizeKeeps(sb, b1, t1, owner, ip.inum, ip.size);
      SizeInvisible(b1, t1, t2, ip.inum);
      table := t2;
      Iupdate(ip);
      FilesTrans(b1, t1, b1, t2, blocks, t2);
      KeepsTrans(b0, t0, b1, t1, blocks, t2);
      SuppliedSame(sb, b0, t0, b1, t1, blocks, t2, owner, ip.inum, off, |src|);
      AllFit(b0, t0);
      WritingFinal(sb, b0, t0, b1, t1, blocks, t2, ip.inum, off, src);
      WroteAll(sb, b0, t0, blocks, t2, ip.inum, off, src);
    }

    /** bfree of a block that no slot names any more: it does not panic. */
    method Drop(b: nat, ghost extra: set<nat>) returns (ok: bool)
      requires Sound(extra) && b in extra
      modifies this`blocks, this`logged
      ensures ok && Sound(extra - {b}) && IsTable(table)
      ensures Covered(old(blocks), old(logged), blocks, logged)
      ensures SameFiles(old(blocks), table, blocks, table) && KeepsAddrs(old(blocks), table, blocks, table)
      ensures SameInodeBlocks(sb, old(blocks), blocks)
    {
      OwnedRange(sb, blocks, table, owner, extra);
      MapBlocksAreMetadata(sb, blocks, table, b);
      FreeKeeps(sb, blocks, table, owner, extra, b);
      hide Owned, Used, SameFiles, KeepsAddrs;
      ok := Bfree(b);
    }

    /** One round of itrunc's first loop, on a non-zero address. */
    method FreeDirect(ip: Inode, i: nat) returns (ok: bool)
      requires Sound({}) && Mirrors(ip) && i < NDIRECT && ip.addrs[..][i] != 0
      modifies this, ip.addrs
      ensures ok && Covered(old(blocks), old(logged), blocks, logged)
      ensures Sound({}) && Mirrors(ip) && IsTable(old(table)) && IsTable(table)
      ensures table == SetAddr(old(table), ip.inum, i, 0)
      ensures owner == old(owner) - {old(ip.addrs[..])[i] as nat}
      ensures SameFiles(old(blocks), table, blocks, table) && KeepsAddrs(old(blocks), table, blocks, table)
      ensures SameInodeBlocks(sb, old(blocks), blocks)
    {
      OwnedRange(sb, blocks, table, owner, {});
      hide Owned, SameFiles, KeepsAddrs;
      var b: nat := ip.addrs[i];
      DropDirect(sb, blocks, table, owner, {}, ip.inum, i);
      table, owner := SetAddr(table, ip.inum, i, 0), owner - {b};
      assert {} + {b} == {b} && {b} - {b} == {};
      ok := Drop(b, {b});
      ip.addrs[i] := 0;
      assert ip.addrs[..] == table[ip.inum].addrs;
    }

    /** One round of itrunc's first loop. */
    method TruncSlot(ip: Inode, i: nat, ghost b0: Disk, ghost t0: seq<Dinode>, ghost o0: map<nat, Slot>)
      returns (ok: bool)
      requires Sound({}) && Mirrors(ip) && i < NDIRECT && IsTable(table) && IsTable(t0)
      requires owner == WithoutDirect(o0, ip.inum, i)
      requires OthersIntact(b0, t0, blocks, table, ip.inum)
      modifies this, ip.addrs
      ensures ok && Sound({}) && Mirrors(ip) && IsTable(table) && Covered(old(blocks), old(logged), blocks, logged)
      ensures ip.addrs[..] == old(ip.addrs[..])[i := 0] && table == SetAddr(old(table), ip.inum, i, 0)
      ensures owner == WithoutDirect(o0, ip.inum, i + 1)
      ensures OthersIntact(b0, t0, blocks, table, ip.inum)
      ensures SameInodeBlocks(sb, old(blocks), blocks)
    {
      hide Owned, SameFiles, KeepsAddrs, OthersIntact, WithoutDirect, Covered;
      CoveredRefl(blocks, logged);
      NextDirect(sb, blocks, table, o0, ip.inum, i);
      ok := true;
      if ip.addrs[i] != 0 {
        ghost var b1, t1 := blocks, table;
        ok := FreeDirect(ip, i);
        IntactTrans(b0, t0, b1, t1, blocks, table, ip.inum);
      } else {
        OwnerSame(sb, blocks, table, owner, ip.inum, i);
        ClearedAlready(table, ip.inum, i);
      }
    }

    /** itrunc's first loop. */
    method TruncDirect(ip: Inode) returns (ok: bool)
      requires Sound({}) && Mirrors(ip)
      modifies this, ip.addrs
      ensures ok && Covered(old(blocks), old(logged), blocks, logged)
      ensures Sound({}) && Mirrors(ip) && AddrsOnly(old(table), ip.inum) && IsTable(table) && IsTable(old(table))
      ensures forall k :: 0 <= k < NDIRECT ==> ip.addrs[..][k] == 0
      ensures owner == WithoutDirect(old(owner), ip.inum, NDIRECT)
      ensures OthersIntact(old(blocks), old(table), blocks, table, ip.inum)
      ensures SameInodeBlocks(sb, old(blocks), blocks)
    {
      hide Owned, OthersIntact, WithoutDirect, Covered, SameInodeBlocks;
      ok := true;
      OwnedRange(sb, blocks, table, owner, {});
      var i := 0;
      WithoutNone(owner, ip.inum);
      IntactRefl(blocks, table, ip.inum);
      CoveredRefl(blocks, logged);
      SameInodesTrans(sb, blocks, blocks, blocks);
      while i < NDIRECT
        invariant i <= NDIRECT && ok && IsTable(table)
        invariant Sound({}) && Mirrors(ip) && AddrsOnly(old(table), ip.inum)
        invariant forall k :: 0 <= k < i ==> ip.addrs[..][k] == 0
        invariant owner == WithoutDirect(old(owner), ip.inum, i)
        invariant Covered(old(blocks), old(logged), blocks, logged)
        invariant OthersIntact(old(blocks), old(table), blocks, table, ip.inum)
        invariant SameInodeBlocks(sb, old(blocks), blocks)
      {
        ghost var b1, l1 := blocks, logged;
        ok := TruncSlot(ip, i, old(blocks), old(table), old(owner));
        CoveredTrans(old(blocks), old(logged), b1, l1, blocks, logged);
        SameInodesTrans(sb, old(blocks), b1, blocks);
        i := i + 1;
      }
    }

    /** itrunc's inner loop, over the entries of the indirect block ind. */
    method FreeEntries(a: Block, ind: nat) returns (ok: bool)
      requires Sound({ind} + Rest(a, 0)) && ind !in Rest(a, 0) && IsTable(table)
      requires DistinctEntries(a)
      modifies this`blocks, this`logged
      ensures ok && Sound({ind}) && Covered(old(blocks), old(logged), blocks, logged)
      ensures SameFiles(old(blocks), table, blocks, table) && KeepsAddrs(old(blocks), table, blocks, table)
      ensures SameInodeBlocks(sb, old(blocks), blocks)
    {
      ok := true;
      hide Owned, SameFiles, KeepsAddrs, Word, Rest, DistinctEntries, Covered;
      CoveredRefl(blocks, logged);
      FilesRefl(blocks, table);
      ghost var es := Rest(a, 0);
      var j := 0;
      while j < NINDIRECT
        invariant j <= NINDIRECT && ok
        invariant Sound({ind} + Rest(a, j)) && Covered(old(blocks), old(logged), blocks, logged)
        invariant SameFiles(old(blocks), table, blocks, table) && KeepsAddrs(old(blocks), table, blocks, table)
        invariant SameInodeBlocks(sb, old(blocks), blocks)
      {
        RestStep(a, j);
        if Word(a, j) != 0 {
          ghost var b1, l1 := blocks, logged;
          IndNotEntry(a, j, ind, es);
          ok := Drop(Word(a, j), {ind} + Rest(a, j));
          FilesTrans(old(blocks), table, b1, table, blocks, table);
          CoveredTrans(old(blocks), old(logged), b1, l1, blocks, logged);
        } else {
          ZeroNotIn(a, j);
        }
        j := j + 1;
      }
      RestEmpty(a);
      assert {ind} + Rest(a, NINDIRECT) == {ind};
    }

    /** itrunc's second part: the blocks the indirect block names, then the indirect block. */
    method TruncIndirect(ip: Inode) returns (ok: bool)
      requires Sound({}) && Mirrors(ip) && ip.addrs[..][NDIRECT] != 0
      modifies this, ip.addrs
      ensures ok && Covered(old(blocks), old(logged), blocks, logged)
      ensures Sound({}) && Mirrors(ip) && IsTable(table) && IsTable(old(table))
      ensures table == SetAddr(old(table), ip.inum, NDIRECT, 0)
      ensures owner == old(owner) - ({old(ip.addrs[..])[NDIRECT] as nat} + Entries(old(blocks), old(table)[ip.inum]))
      ensures SameFiles(old(blocks), table, blocks, table) && KeepsAddrs(old(blocks), table, blocks, table)
      ensures SameInodeBlocks(sb, old(blocks), blocks)
    {
      OwnedRange(sb, blocks, table, owner, {});
      EntriesDistinct(sb, blocks, table, owner, ip.inum);
      DropIndirect(sb, blocks, table, owner, {}, ip.inum);
      hide Owned, SameFiles, KeepsAddrs, Word, Rest, Entries, DistinctEntries, Covered;
      var ind: nat := ip.addrs[NDIRECT];
      ghost var es := Entries(blocks, table[ip.inum]);
      table, owner := SetAddr(table, ip.inum, NDIRECT, 0), owner - ({ind} + es);
      assert {} + ({ind} + es) == {ind} + Rest(blocks[ind], 0);
      ok := FreeEntries(blocks[ind], ind);
      ghost var b1, l1 := blocks, logged;
      assert {ind} - {ind} == {};
      ok := Drop(ind, {ind});
      FilesTrans(old(blocks), table, b1, table, blocks, table);
      CoveredTrans(old(blocks), old(logged), b1, l1, blocks, logged);
      ip.addrs[NDIRECT] := 0;
      assert ip.addrs[..] == table[ip.inum].addrs;
    }

    /** itrunc: the inode gives up exactly its own blocks, which are all marked, so bfree never
        panics; every other file keeps its blocks and contents; the disk inode is up to date. */
    method Itrunc(ip: Inode) returns (ok: bool)
      requires Valid() && Mirrors(ip)
      modifies this, ip, ip.addrs
      ensures ok && Covered(old(blocks), old(logged), blocks, logged)
      ensures Valid() && Mirrors(ip) && |table| == |old(table)|
      ensures owner == WithoutInode(old(owner), ip.inum)
      ensures ip.size == 0 && forall k :: 0 <= k <= NDIRECT ==> ip.addrs[..][k] == 0
      ensures table[ip.inum] == old(table)[ip.inum].(size := 0, addrs := table[ip.inum].addrs)
      ensures forall i :: 0 <= i < |table| && i != ip.inum ==>
        table[i] == old(table)[i] && Contents(blocks, table[i]) == Contents(old(blocks), old(table)[i])
    {
      OwnedRange(sb, blocks, table, owner, {});
      hide Owned, Addr, BlockAt, SameFiles, KeepsAddrs, OthersIntact, Contents, Synced, Sized, Covered;
      ghost var b0, t0, o0 := blocks, table, owner;
      ok := TruncDirect(ip);
      LastOwners(sb, blocks, table, o0, ip.inum);
      ghost var b1, t1, l1 := blocks, table, logged;
      CoveredRefl(blocks, logged);
      if ip.addrs[NDIRECT] != 0 {
        ok := TruncIndirect(ip);
        IntactTrans(b0, t0, b1, t1, blocks, table, ip.inum);
      }
      ghost var b2, t2, l2 := blocks, table, logged;
      CoveredTrans(b0, old(logged), b1, l1, b2, l2);
      ip.size := 0;
      SizeKeeps(sb, blocks, table, owner, ip.inum, 0);
      table := table[ip.inum := ip.Value()];
      SyncedBut(sb, b0, t0, ip.inum);
      SyncedStays(sb, b0, blocks, t0, table, ip.inum);
      Iupdate(ip);
      CoveredTrans(b0, old(logged), b2, l2, blocks, logged);
      IntactTrans(b0, t0, b2, t2, blocks, table, ip.inum);
      IntactSized(b0, t0, blocks, table, ip.inum);
    }
  }
}
