/** Who owns which disk block: every non-zero address in an inode or an indirect block names a
    block of its own, and the free map marks exactly the metadata and the named blocks. */
module FsOwnership {
  import opened Blocks
  import opened Words
  import opened FsLayout

  /** A place that can name a block: a direct address, the indirect address, or an entry of the
      indirect block. */
  datatype Slot = Direct(inum: nat, i: nat) | Indirect(inum: nat) | Entry(inum: nat, j: nat)

  predicate IsTable(t: seq<Dinode>) { forall i :: 0 <= i < |t| ==> Shaped(t[i]) }

  predicate IsSlot(t: seq<Dinode>, s: Slot) {
    match s
    case Direct(inum, i) => inum < |t| && i < NDIRECT
    case Indirect(inum) => inum < |t|
    case Entry(inum, j) => inum < |t| && j < NINDIRECT
  }

  /** a[j] of the indirect block, 0 if there is none. */
  function EntryOf(blocks: Disk, d: Dinode, j: nat): (a: U32)
    requires Shaped(d) && j < NINDIRECT
  {
    var ind := d.addrs[NDIRECT];
    if ind == 0 || ind >= |blocks| then 0 else Word(blocks[ind], j)
  }

  function Named(blocks: Disk, t: seq<Dinode>, s: Slot): (a: U32)
    requires IsTable(t) && IsSlot(t, s)
  {
    match s
    case Direct(inum, i) => t[inum].addrs[i]
    case Indirect(inum) => t[inum].addrs[NDIRECT]
    case Entry(inum, j) => EntryOf(blocks, t[inum], j)
  }

  predicate Used(sb: Super, blocks: Disk, b: nat)
  {
    BBlock(sb, b) < |blocks| && BitIn(blocks[BBlock(sb, b)], b % BPB)
  }

  predicate Geometry(sb: Super, blocks: Disk, t: seq<Dinode>) {
    && 1 <= sb.inodestart
    && sb.inodestart + sb.ninodes / IPB + 1 <= sb.bmapstart
    && sb.bmapstart + sb.size / BPB + 1 <= sb.datastart <= sb.size <= |blocks|
    && sb.size < TWO32
    && |t| == sb.ninodes && IsTable(t)
  }

  /** owner maps every owned block to the one slot that names it; extra are blocks marked used that
      no slot names, as they are between balloc and the store of their address, and between the
      loss of their address and bfree. */
  ghost predicate Owned(sb: Super, blocks: Disk, t: seq<Dinode>, owner: map<nat, Slot>, extra: set<nat>) {
    && Geometry(sb, blocks, t)
    && (forall s :: IsSlot(t, s) && Named(blocks, t, s) != 0 ==>
          Named(blocks, t, s) in owner && owner[Named(blocks, t, s)] == s)
    && (forall b :: b in owner ==>
          sb.datastart <= b < sb.size && IsSlot(t, owner[b]) && Named(blocks, t, owner[b]) == b)
    && (forall b :: b in extra ==> sb.datastart <= b < sb.size && b !in owner)
    && (forall b: nat :: b < sb.size ==> (Used(sb, blocks, b) <==> b < sb.datastart || b in owner || b in extra))
  }

  lemma OwnedRange(sb: Super, blocks: Disk, t: seq<Dinode>, owner: map<nat, Slot>, extra: set<nat>)
    requires Owned(sb, blocks, t, owner, extra)
    ensures Geometry(sb, blocks, t)
    ensures forall b :: b in owner ==> sb.datastart <= b < sb.size && IsSlot(t, owner[b])
    ensures forall b :: b in extra ==> sb.datastart <= b < sb.size && b !in owner
    ensures forall b: nat :: b < sb.size ==> (Used(sb, blocks, b) <==> b < sb.datastart || b in owner || b in extra)
  {}

  lemma NamedOwner(sb: Super, blocks: Disk, t: seq<Dinode>, owner: map<nat, Slot>, extra: set<nat>, s: Slot)
    requires Owned(sb, blocks, t, owner, extra) && IsTable(t) && IsSlot(t, s) && Named(blocks, t, s) != 0
    ensures Named(blocks, t, s) in owner && owner[Named(blocks, t, s)] == s
    ensures sb.datastart <= Named(blocks, t, s) < sb.size <= |blocks|
  {}

  lemma OwnerNames(sb: Super, blocks: Disk, t: seq<Dinode>, owner: map<nat, Slot>, extra: set<nat>, b: nat)
    requires Owned(sb, blocks, t, owner, extra) && b in owner
    ensures IsTable(t) && IsSlot(t, owner[b]) && Named(blocks, t, owner[b]) == b && 0 < sb.datastart <= b < sb.size
  {}

  /** Distinct slots, of one inode or of two, never name the same block. */
  lemma SlotsNameDistinctBlocks(sb: Super, blocks: Disk, t: seq<Dinode>, owner: map<nat, Slot>, extra: set<nat>,
                                s: Slot, u: Slot)
    requires Owned(sb, blocks, t, owner, extra) && IsSlot(t, s) && IsSlot(t, u) && s != u
    ensures Named(blocks, t, s) != 0 ==> Named(blocks, t, s) != Named(blocks, t, u)
    ensures Named(blocks, t, s) != 0 ==> sb.datastart <= Named(blocks, t, s) < sb.size
  {}

  // ------------------------------------------------------------- file contents

  /** The block that holds byte block bn of a file, 0 if none is allocated. */
  function Addr(blocks: Disk, d: Dinode, bn: nat): (a: U32)
    requires Shaped(d) && bn < MAXFILE
  {
    if bn < NDIRECT then d.addrs[bn] else EntryOf(blocks, d, bn - NDIRECT)
  }

  function SlotOf(inum: nat, bn: nat): (s: Slot)
    requires bn < MAXFILE
  {
    if bn < NDIRECT then Direct(inum, bn) else Entry(inum, bn - NDIRECT)
  }

  /** Byte block bn of a file; a place with no block reads as zeros, as a new block does. */
  function BlockAt(blocks: Disk, d: Dinode, bn: nat): (c: Block)
    requires Shaped(d) && bn < MAXFILE
  {
    var a := Addr(blocks, d, bn);
    if a == 0 || a >= |blocks| then ZeroBlock() else blocks[a]
  }

  /** No byte of any file has changed. */
  ghost predicate SameFiles(blocks: Disk, t: seq<Dinode>, blocks': Disk, t': seq<Dinode>)
    requires IsTable(t) && IsTable(t')
  {
    && |t| == |t'|
    && forall i, bn :: 0 <= i < |t| && 0 <= bn < MAXFILE ==> BlockAt(blocks', t'[i], bn) == BlockAt(blocks, t[i], bn)
  }

  /** Every block number a file had, it still has. */
  ghost predicate KeepsAddrs(blocks: Disk, t: seq<Dinode>, blocks': Disk, t': seq<Dinode>)
    requires IsTable(t) && IsTable(t')
  {
    && |t| == |t'|
    && forall i, bn :: 0 <= i < |t| && 0 <= bn < MAXFILE && Addr(blocks, t[i], bn) != 0 ==>
         Addr(blocks', t'[i], bn) == Addr(blocks, t[i], bn)
  }

  /** No name goes away if at most slot s, which named nothing, changes. */
  lemma NamesKeepAddrs(blocks: Disk, t: seq<Dinode>, blocks': Disk, t': seq<Dinode>, s: Slot)
    requires IsTable(t) && IsTable(t') && |t'| == |t|
    requires IsSlot(t, s) ==> Named(blocks, t, s) == 0
    requires forall u :: IsSlot(t, u) && u != s ==> Named(blocks', t', u) == Named(blocks, t, u)
    ensures KeepsAddrs(blocks, t, blocks', t')
  {
    forall i, bn | 0 <= i < |t| && 0 <= bn < MAXFILE && Addr(blocks, t[i], bn) != 0
      ensures Addr(blocks', t'[i], bn) == Addr(blocks, t[i], bn)
    {
      assert Named(blocks, t, SlotOf(i, bn)) == Addr(blocks, t[i], bn);
      assert Named(blocks', t', SlotOf(i, bn)) == Addr(blocks', t'[i], bn);
    }
  }

  // ------------------------------------------------------------------- balloc

  function MarkUsed(sb: Super, blocks: Disk, b: nat): (r: Disk)
    requires BBlock(sb, b) < |blocks|
  {
    blocks[BBlock(sb, b) := SetBitIn(blocks[BBlock(sb, b)], b % BPB)]
  }

  function MarkFree(sb: Super, blocks: Disk, b: nat): (r: Disk)
    requires BBlock(sb, b) < |blocks|
  {
    blocks[BBlock(sb, b) := ClearBitIn(blocks[BBlock(sb, b)], b % BPB)]
  }

  lemma UsedAfter(sb: Super, blocks: Disk, b: nat, c: nat)
    requires BBlock(sb, b) < |blocks| && BBlock(sb, c) < |blocks|
    ensures Used(sb, MarkUsed(sb, blocks, b), c) == (c == b || Used(sb, blocks, c))
    ensures Used(sb, MarkFree(sb, blocks, b), c) == (c != b && Used(sb, blocks, c))
  {
    BitInAfter(blocks[BBlock(sb, b)], b % BPB, c % BPB);
    assert b == c <==> BBlock(sb, b) == BBlock(sb, c) && b % BPB == c % BPB;
  }

  lemma SameMap(sb: Super, blocks: Disk, blocks': Disk, t: seq<Dinode>)
    requires Geometry(sb, blocks, t) && |blocks'| == |blocks|
    requires forall b: nat :: sb.bmapstart <= b < sb.datastart ==> blocks'[b] == blocks[b]
    ensures forall b: nat :: b < sb.size ==> Used(sb, blocks', b) == Used(sb, blocks, b)
  {}

  lemma MapBlocksAreMetadata(sb: Super, blocks: Disk, t: seq<Dinode>, b: nat)
    requires Geometry(sb, blocks, t) && b < sb.size
    ensures sb.bmapstart <= BBlock(sb, b) < sb.datastart
  {}

  /** Blocks that no inode of the table uses as its indirect block may change without any slot
      naming another block. */
  lemma NamedSame(sb: Super, blocks: Disk, blocks': Disk, t: seq<Dinode>, owner: map<nat, Slot>, extra: set<nat>,
                  s: Slot)
    requires Owned(sb, blocks, t, owner, extra) && |blocks'| == |blocks| && IsSlot(t, s)
    requires forall b :: b in owner && owner[b].Indirect? ==> blocks'[b] == blocks[b]
    ensures Named(blocks', t, s) == Named(blocks, t, s)
  {
    if s.Entry? && t[s.inum].addrs[NDIRECT] != 0 {
      assert Named(blocks, t, Indirect(s.inum)) in owner;
    }
  }

  /** A block of a file keeps its contents if its slot names the same block and that block is unchanged. */
  lemma BlockSame(sb: Super, blocks: Disk, t: seq<Dinode>, owner: map<nat, Slot>, extra: set<nat>, i: nat, bn: nat,
                  blocks': Disk, t': seq<Dinode>)
    requires Owned(sb, blocks, t, owner, extra) && i < |t| && bn < MAXFILE
    requires |blocks'| == |blocks| && |t'| == |t| && IsTable(t')
    requires Named(blocks', t', SlotOf(i, bn)) == Named(blocks, t, SlotOf(i, bn))
    requires forall b :: b in owner && owner[b] == SlotOf(i, bn) ==> blocks'[b] == blocks[b]
    ensures BlockAt(blocks', t'[i], bn) == BlockAt(blocks, t[i], bn)
  {
    var s := SlotOf(i, bn);
    assert Addr(blocks, t[i], bn) == Named(blocks, t, s);
    assert Addr(blocks', t'[i], bn) == Named(blocks', t', s);
    if Named(blocks, t, s) != 0 { assert Named(blocks, t, s) in owner; }
  }

  /** Ownership only depends on what the slots name and on the free map. */
  lemma SameOwned(sb: Super, blocks: Disk, t: seq<Dinode>, owner: map<nat, Slot>, extra: set<nat>, blocks': Disk)
    requires Owned(sb, blocks, t, owner, extra) && |blocks'| == |blocks|
    requires forall b :: b in owner && owner[b].Indirect? ==> blocks'[b] == blocks[b]
    requires forall b: nat :: sb.bmapstart <= b < sb.datastart ==> blocks'[b] == blocks[b]
    ensures Owned(sb, blocks', t, owner, extra)
  {
    forall u | IsSlot(t, u) ensures Named(blocks', t, u) == Named(blocks, t, u) {
      NamedSame(sb, blocks, blocks', t, owner, extra, u);
    }
    SameMap(sb, blocks, blocks', t);
  }

  /** No file changes if only unowned blocks do. */
  lemma UnownedKeepsFiles(sb: Super, blocks: Disk, t: seq<Dinode>, owner: map<nat, Slot>, extra: set<nat>,
                          blocks': Disk)
    requires Owned(sb, blocks, t, owner, extra) && |blocks'| == |blocks| && IsTable(t)
    requires forall b :: b in owner ==> blocks'[b] == blocks[b]
    ensures SameFiles(blocks, t, blocks', t) && KeepsAddrs(blocks, t, blocks', t)
  {
    forall u | IsSlot(t, u) ensures Named(blocks', t, u) == Named(blocks, t, u) {
      NamedSame(sb, blocks, blocks', t, owner, extra, u);
    }
    NamesKeepAddrs(blocks, t, blocks', t, Direct(|t|, 0));
    forall i, bn | 0 <= i < |t| && 0 <= bn < MAXFILE ensures BlockAt(blocks', t[i], bn) == BlockAt(blocks, t[i], bn) {
      BlockSame(sb, blocks, t, owner, extra, i, bn, blocks', t);
    }
  }

  lemma OneMoreUsed(sb: Super, blocks: Disk, t: seq<Dinode>, owner: map<nat, Slot>, extra: set<nat>, blocks': Disk,
                    b: nat)
    requires Owned(sb, blocks, t, owner, extra) && |blocks'| == |blocks| && sb.datastart <= b < sb.size && b !in owner
    requires forall s :: IsSlot(t, s) ==> Named(blocks', t, s) == Named(blocks, t, s)
    requires forall c: nat :: c < sb.size ==> Used(sb, blocks', c) == (c == b || Used(sb, blocks, c))
    ensures Owned(sb, blocks', t, owner, extra + {b})
  {
    hide Named, Used, IsSlot;
  }

  /** balloc's effect on a free block: marked, zeroed, and nothing else is touched. */
  lemma AllocKeeps(sb: Super, blocks: Disk, t: seq<Dinode>, owner: map<nat, Slot>, extra: set<nat>, b: nat)
    requires Owned(sb, blocks, t, owner, extra) && b < sb.size && !Used(sb, blocks, b)
    ensures var blocks' := MarkUsed(sb, blocks, b)[b := ZeroBlock()];
      && b !in owner && b !in extra && sb.datastart <= b
      && Owned(sb, blocks', t, owner, extra + {b})
      && SameFiles(blocks, t, blocks', t) && KeepsAddrs(blocks, t, blocks', t)
  {
    OwnedRange(sb, blocks, t, owner, extra);
    MapBlocksAreMetadata(sb, blocks, t, b);
    var blocks' := MarkUsed(sb, blocks, b)[b := ZeroBlock()];
    forall s | IsSlot(t, s) ensures Named(blocks', t, s) == Named(blocks, t, s) {
      NamedSame(sb, blocks, blocks', t, owner, extra, s);
    }
    hide Owned, Named;
    forall c: nat | c < sb.size ensures Used(sb, blocks', c) == (c == b || Used(sb, blocks, c)) {
      UsedAfter(sb, blocks, b, c);
      MapBlocksAreMetadata(sb, blocks, t, c);
    }
    OneMoreUsed(sb, blocks, t, owner, extra, blocks', b);
    hide SameFiles, KeepsAddrs, Used;
    UnownedKeepsFiles(sb, blocks, t, owner, extra, blocks');
  }

  // ---------------------------------------------------- storing a new address

  function SetAddr(t: seq<Dinode>, inum: nat, k: nat, a: U32): (r: seq<Dinode>)
    requires IsTable(t) && inum < |t| && k <= NDIRECT
    ensures IsTable(r) && |r| == |t|
  {
    t[inum := t[inum].(addrs := t[inum].addrs[k := a])]
  }

  /** The new owner of a block that was marked but unnamed; s is the only slot whose name changed. */
  lemma Adopt(sb: Super, blocks: Disk, t: seq<Dinode>, owner: map<nat, Slot>, extra: set<nat>,
              blocks': Disk, t': seq<Dinode>, s: Slot, b: nat)
    requires Owned(sb, blocks, t, owner, extra) && IsSlot(t, s) && b in extra && b != 0
    requires Geometry(sb, blocks', t') && |t'| == |t| && |blocks'| == |blocks|
    requires Named(blocks, t, s) == 0 && Named(blocks', t', s) == b
    requires forall u :: IsSlot(t, u) && u != s ==> Named(blocks', t', u) == Named(blocks, t, u)
    requires forall c: nat :: c < sb.size ==> Used(sb, blocks', c) == Used(sb, blocks, c)
    ensures Owned(sb, blocks', t', owner[b := s], extra - {b})
  {
    hide Named, Used;
    var owner' := owner[b := s];
    forall u | IsSlot(t, u) && Named(blocks', t', u) != 0
      ensures Named(blocks', t', u) in owner' && owner'[Named(blocks', t', u)] == u
    {
      if u != s { assert Named(blocks, t, u) in owner && owner[Named(blocks, t, u)] == u; }
    }
    forall c | c in owner'
      ensures sb.datastart <= c < sb.size && IsSlot(t', owner'[c]) && Named(blocks', t', owner'[c]) == c
    {
      if c != b { assert c in owner && owner[c] != s; }
    }
  }

  /** ip->addrs[bn] = balloc() */
  lemma AssignDirect(sb: Super, blocks: Disk, t: seq<Dinode>, owner: map<nat, Slot>, extra: set<nat>, inum: nat, i: nat,
                     b: U32)
    requires Owned(sb, blocks, t, owner, extra) && IsSlot(t, Direct(inum, i)) && b in extra && b != 0
    requires t[inum].addrs[i] == 0 && blocks[b] == ZeroBlock()
    ensures var t' := SetAddr(t, inum, i, b);
      && Owned(sb, blocks, t', owner[b := Direct(inum, i)], extra - {b})
      && SameFiles(blocks, t, blocks, t') && KeepsAddrs(blocks, t, blocks, t')
  {
    var t' := SetAddr(t, inum, i, b);
    Adopt(sb, blocks, t, owner, extra, blocks, t', Direct(inum, i), b);
    NamesKeepAddrs(blocks, t, blocks, t', Direct(inum, i));
    forall k, bn | 0 <= k < |t| && 0 <= bn < MAXFILE ensures BlockAt(blocks, t'[k], bn) == BlockAt(blocks, t[k], bn) {
      if SlotOf(k, bn) != Direct(inum, i) {
        BlockSame(sb, blocks, t, owner, extra, k, bn, blocks, t');
      }
    }
  }

  /** ip->addrs[NDIRECT] = balloc(). The new indirect block names nothing because balloc zeroed it. */
  lemma AssignIndirect(sb: Super, blocks: Disk, t: seq<Dinode>, owner: map<nat, Slot>, extra: set<nat>, inum: nat,
                       b: U32)
    requires Owned(sb, blocks, t, owner, extra) && IsSlot(t, Indirect(inum)) && b in extra && b != 0
    requires t[inum].addrs[NDIRECT] == 0 && blocks[b] == ZeroBlock()
    ensures var t' := SetAddr(t, inum, NDIRECT, b);
      && Owned(sb, blocks, t', owner[b := Indirect(inum)], extra - {b})
      && SameFiles(blocks, t, blocks, t') && KeepsAddrs(blocks, t, blocks, t')
  {
    var t' := SetAddr(t, inum, NDIRECT, b);
    forall u | IsSlot(t, u) && u != Indirect(inum) ensures Named(blocks, t', u) == Named(blocks, t, u) {
      if u.Entry? && u.inum == inum { WordOfZeroBlock(u.j); }
    }
    Adopt(sb, blocks, t, owner, extra, blocks, t', Indirect(inum), b);
    NamesKeepAddrs(blocks, t, blocks, t', Indirect(inum));
    forall k, bn | 0 <= k < |t| && 0 <= bn < MAXFILE ensures BlockAt(blocks, t'[k], bn) == BlockAt(blocks, t[k], bn) {
      BlockSame(sb, blocks, t, owner, extra, k, bn, blocks, t');
    }
  }

  /** The name changes that storing entry j of an indirect block makes. */
  lemma EntryNames(sb: Super, blocks: Disk, t: seq<Dinode>, owner: map<nat, Slot>, extra: set<nat>, inum: nat, j: nat,
                   b: U32, u: Slot)
    requires Owned(sb, blocks, t, owner, extra) && IsSlot(t, Entry(inum, j)) && IsSlot(t, u)
    requires t[inum].addrs[NDIRECT] != 0
    ensures var ind := t[inum].addrs[NDIRECT];
      && ind in owner && owner[ind] == Indirect(inum) && sb.datastart <= ind < |blocks|
      && Named(blocks[ind := PutWord(blocks[ind], j, b)], t, u) == if u == Entry(inum, j) then b
         else Named(blocks, t, u)
  {
    var ind := t[inum].addrs[NDIRECT];
    assert Named(blocks, t, Indirect(inum)) == ind && ind in owner;
    if u.Entry? && t[u.inum].addrs[NDIRECT] != 0 {
      assert Named(blocks, t, Indirect(u.inum)) in owner;
      WordOfPutWord(blocks[ind], j, b, u.j);
    }
  }

  lemma EntryOwned(sb: Super, blocks: Disk, t: seq<Dinode>, owner: map<nat, Slot>, extra: set<nat>, inum: nat, j: nat,
                   b: U32)
    requires Owned(sb, blocks, t, owner, extra) && IsSlot(t, Entry(inum, j)) && b in extra && b != 0
    requires t[inum].addrs[NDIRECT] != 0 && Named(blocks, t, Entry(inum, j)) == 0
    ensures var ind := t[inum].addrs[NDIRECT];
      && ind in owner && ind < |blocks| && sb.datastart <= ind
      && Owned(sb, blocks[ind := PutWord(blocks[ind], j, b)], t, owner[b := Entry(inum, j)], extra - {b})
  {
    EntryNames(sb, blocks, t, owner, extra, inum, j, b, Entry(inum, j));
    OwnedRange(sb, blocks, t, owner, extra);
    hide Owned, Named, Used, BBlock;
    var ind := t[inum].addrs[NDIRECT];
    var blocks' := blocks[ind := PutWord(blocks[ind], j, b)];
    forall u | IsSlot(t, u) && u != Entry(inum, j) ensures Named(blocks', t, u) == Named(blocks, t, u) {
      EntryNames(sb, blocks, t, owner, extra, inum, j, b, u);
    }
    SameMap(sb, blocks, blocks', t);
    Adopt(sb, blocks, t, owner, extra, blocks', t, Entry(inum, j), b);
  }

  lemma EntryBlocks(sb: Super, blocks: Disk, t: seq<Dinode>, owner: map<nat, Slot>, extra: set<nat>, inum: nat, j: nat,
                    b: U32, k: nat, bn: nat)
    requires Owned(sb, blocks, t, owner, extra) && IsSlot(t, Entry(inum, j)) && b in extra && b != 0
    requires t[inum].addrs[NDIRECT] != 0 && Named(blocks, t, Entry(inum, j)) == 0 && blocks[b] == ZeroBlock()
    requires k < |t| && bn < MAXFILE
    ensures var ind := t[inum].addrs[NDIRECT];
      && ind < |blocks|
      && BlockAt(blocks[ind := PutWord(blocks[ind], j, b)], t[k], bn) == BlockAt(blocks, t[k], bn)
  {
    var u := SlotOf(k, bn);
    EntryNames(sb, blocks, t, owner, extra, inum, j, b, u);
    var ind := t[inum].addrs[NDIRECT];
    var blocks' := blocks[ind := PutWord(blocks[ind], j, b)];
    if u != Entry(inum, j) {
      BlockSame(sb, blocks, t, owner, extra, k, bn, blocks', t);
    } else {
      assert Addr(blocks, t[k], bn) == 0 && Addr(blocks', t[k], bn) == b;
    }
  }

  /** a[bn] = balloc(), in the indirect block. */
  lemma AssignEntry(sb: Super, blocks: Disk, t: seq<Dinode>, owner: map<nat, Slot>, extra: set<nat>, inum: nat, j: nat,
                    b: U32)
    requires Owned(sb, blocks, t, owner, extra) && IsSlot(t, Entry(inum, j)) && b in extra && b != 0
    requires t[inum].addrs[NDIRECT] != 0 && Named(blocks, t, Entry(inum, j)) == 0 && blocks[b] == ZeroBlock()
    ensures var ind := t[inum].addrs[NDIRECT];
      && ind in owner && ind < |blocks| && sb.datastart <= ind
      && var blocks' := blocks[ind := PutWord(blocks[ind], j, b)];
      && Owned(sb, blocks', t, owner[b := Entry(inum, j)], extra - {b})
      && SameFiles(blocks, t, blocks', t) && KeepsAddrs(blocks, t, blocks', t)
  {
    EntryOwned(sb, blocks, t, owner, extra, inum, j, b);
    OwnedRange(sb, blocks, t, owner, extra);
    var ind := t[inum].addrs[NDIRECT];
    var blocks' := blocks[ind := PutWord(blocks[ind], j, b)];
    forall u | IsSlot(t, u) && u != Entry(inum, j) ensures Named(blocks', t, u) == Named(blocks, t, u) {
      EntryNames(sb, blocks, t, owner, extra, inum, j, b, u);
    }
    hide Owned, BlockAt, KeepsAddrs;
    NamesKeepAddrs(blocks, t, blocks', t, Entry(inum, j));
    forall k, bn | 0 <= k < |t| && 0 <= bn < MAXFILE ensures BlockAt(blocks', t[k], bn) == BlockAt(blocks, t[k], bn) {
      EntryBlocks(sb, blocks, t, owner, extra, inum, j, b, k, bn);
    }
  }

  // ------------------------------------------------------------- data and inodes

  /** Byte block bn of file inum is now c; every other byte of every file is as it was. */
  ghost predicate OneBlockChanged(blocks: Disk, t: seq<Dinode>, blocks': Disk, inum: nat, bn: nat, c: Block)
    requires IsTable(t)
  {
    forall i, k :: 0 <= i < |t| && 0 <= k < MAXFILE ==>
      BlockAt(blocks', t[i], k) == if i == inum && k == bn then c else BlockAt(blocks, t[i], k)
  }

  lemma DataBlocks(sb: Super, blocks: Disk, t: seq<Dinode>, owner: map<nat, Slot>, extra: set<nat>, inum: nat, bn: nat,
                   c: Block, i: nat, k: nat)
    requires Owned(sb, blocks, t, owner, extra) && inum < |t| && bn < MAXFILE && i < |t| && k < MAXFILE
    requires Addr(blocks, t[inum], bn) != 0
    ensures var a := Addr(blocks, t[inum], bn);
      && a < |blocks|
      && BlockAt(blocks[a := c], t[i], k) == if i == inum && k == bn then c else BlockAt(blocks, t[i], k)
  {
    var s, u := SlotOf(inum, bn), SlotOf(i, k);
    var a := Addr(blocks, t[inum], bn);
    NamedOwner(sb, blocks, t, owner, extra, s);
    NamedSame(sb, blocks, blocks[a := c], t, owner, extra, u);
    if u != s {
      BlockSame(sb, blocks, t, owner, extra, i, k, blocks[a := c], t);
    }
  }

  /** Writing a data block changes that block of that file only. */
  lemma DataKeeps(sb: Super, blocks: Disk, t: seq<Dinode>, owner: map<nat, Slot>, extra: set<nat>, inum: nat, bn: nat,
                  c: Block)
    requires Owned(sb, blocks, t, owner, extra) && inum < |t| && bn < MAXFILE
    requires Addr(blocks, t[inum], bn) != 0
    ensures var a := Addr(blocks, t[inum], bn);
      && a in owner && a < |blocks| && sb.datastart <= a
      && Owned(sb, blocks[a := c], t, owner, extra)
      && OneBlockChanged(blocks, t, blocks[a := c], inum, bn, c)
      && KeepsAddrs(blocks, t, blocks[a := c], t)
  {
    var s := SlotOf(inum, bn);
    var a := Addr(blocks, t[inum], bn);
    OwnedRange(sb, blocks, t, owner, extra);
    NamedOwner(sb, blocks, t, owner, extra, s);
    forall u | IsSlot(t, u) ensures Named(blocks[a := c], t, u) == Named(blocks, t, u) {
      NamedSame(sb, blocks, blocks[a := c], t, owner, extra, u);
    }
    hide Owned, Used, BBlock, BlockAt, KeepsAddrs;
    NamesKeepAddrs(blocks, t, blocks[a := c], t, Direct(|t|, 0));
    SameOwned(sb, blocks, t, owner, extra, blocks[a := c]);
    forall i, k | 0 <= i < |t| && 0 <= k < MAXFILE
      ensures BlockAt(blocks[a := c], t[i], k) == if i == inum && k == bn then c else BlockAt(blocks, t[i], k)
    {
      DataBlocks(sb, blocks, t, owner, extra, inum, bn, c, i, k);
    }
  }

  /** A write below the free map, such as iupdate's, changes no ownership and no file. */
  lemma MetadataKeeps(sb: Super, blocks: Disk, t: seq<Dinode>, owner: map<nat, Slot>, extra: set<nat>, m: nat, c: Block)
    requires Owned(sb, blocks, t, owner, extra) && m < sb.bmapstart < sb.datastart <= |blocks| && IsTable(t)
    ensures m < |blocks| && Owned(sb, blocks[m := c], t, owner, extra) && SameFiles(blocks, t, blocks[m := c], t)
      && KeepsAddrs(blocks, t, blocks[m := c], t)
  {
    OwnedRange(sb, blocks, t, owner, extra);
    hide *;
    var blocks' := blocks[m := c];
    assert forall b: nat :: b != m && b < |blocks| ==> blocks'[b] == blocks[b];
    SameOwned(sb, blocks, t, owner, extra, blocks');
    UnownedKeepsFiles(sb, blocks, t, owner, extra, blocks');
  }

  // ------------------------------------------------------------------- freeing

  /** bfree's effect on a block no slot names any more. */
  lemma FreeKeeps(sb: Super, blocks: Disk, t: seq<Dinode>, owner: map<nat, Slot>, extra: set<nat>, b: nat)
    requires Owned(sb, blocks, t, owner, extra) && b in extra
    ensures Used(sb, blocks, b)
    ensures Owned(sb, MarkFree(sb, blocks, b), t, owner, extra - {b})
    ensures SameFiles(blocks, t, MarkFree(sb, blocks, b), t) && KeepsAddrs(blocks, t, MarkFree(sb, blocks, b), t)
  {
    MapBlocksAreMetadata(sb, blocks, t, b);
    var blocks' := MarkFree(sb, blocks, b);
    forall u | IsSlot(t, u) ensures Named(blocks', t, u) == Named(blocks, t, u) {
      NamedSame(sb, blocks, blocks', t, owner, extra, u);
    }
    forall c: nat | c < sb.size ensures Used(sb, blocks', c) == (c != b && Used(sb, blocks, c)) {
      UsedAfter(sb, blocks, b, c);
    }
    UnownedKeepsFiles(sb, blocks, t, owner, extra, blocks');
  }

  /** ip->addrs[i] = 0: the block it named is marked but unnamed. */
  lemma DropDirect(sb: Super, blocks: Disk, t: seq<Dinode>, owner: map<nat, Slot>, extra: set<nat>, inum: nat, i: nat)
    requires Owned(sb, blocks, t, owner, extra) && IsSlot(t, Direct(inum, i)) && t[inum].addrs[i] != 0
    ensures var b := t[inum].addrs[i];
      && b in owner && Owned(sb, blocks, SetAddr(t, inum, i, 0), owner - {b}, extra + {b})
  {
    var b := t[inum].addrs[i];
    var t' := SetAddr(t, inum, i, 0);
    assert Named(blocks, t, Direct(inum, i)) == b && b in owner;
    forall u | IsSlot(t, u) ensures Named(blocks, t', u) == if u == Direct(inum, i) then 0 else Named(blocks, t, u) {}
    forall u | IsSlot(t, u) && Named(blocks, t', u) != 0
      ensures Named(blocks, t', u) in owner - {b} && (owner - {b})[Named(blocks, t', u)] == u
    {
      assert Named(blocks, t, u) in owner;
    }
  }

  /** The blocks an inode's indirect block names. */
  function Entries(blocks: Disk, d: Dinode): (s: set<nat>)
    requires Shaped(d)
  {
    set j | 0 <= j < NINDIRECT && EntryOf(blocks, d, j) != 0 :: EntryOf(blocks, d, j)
  }

  lemma LoseIndirect(sb: Super, blocks: Disk, t: seq<Dinode>, owner: map<nat, Slot>, extra: set<nat>, inum: nat,
                     gone: set<nat>)
    requires Owned(sb, blocks, t, owner, extra) && inum < |t|
    requires forall c :: c in gone <==>
      c in owner && (owner[c] == Indirect(inum) || (owner[c].Entry? && owner[c].inum == inum))
    ensures Owned(sb, blocks, SetAddr(t, inum, NDIRECT, 0), owner - gone, extra + gone)
  {
    var t' := SetAddr(t, inum, NDIRECT, 0);
    forall u | IsSlot(t, u)
      ensures Named(blocks, t', u) == if u == Indirect(inum) || (u.Entry? && u.inum == inum) then 0
        else Named(blocks, t, u)
    {}
    var owner' := owner - gone;
    forall u | IsSlot(t, u) && Named(blocks, t', u) != 0
      ensures Named(blocks, t', u) in owner' && owner'[Named(blocks, t', u)] == u
    {
      NamedOwner(sb, blocks, t, owner, extra, u);
    }
    forall c | c in owner' ensures Named(blocks, t', owner'[c]) == c {
      assert Named(blocks, t, owner[c]) == c;
    }
  }

  /** ip->addrs[NDIRECT] = 0: the indirect block and all it names are marked but unnamed. */
  lemma DropIndirect(sb: Super, blocks: Disk, t: seq<Dinode>, owner: map<nat, Slot>, extra: set<nat>, inum: nat)
    requires Owned(sb, blocks, t, owner, extra) && inum < |t| && t[inum].addrs[NDIRECT] != 0
    ensures var b, es := t[inum].addrs[NDIRECT], Entries(blocks, t[inum]);
      && b in owner && b !in es && (forall e :: e in es ==> e in owner)
      && Owned(sb, blocks, SetAddr(t, inum, NDIRECT, 0), owner - ({b} + es), extra + ({b} + es))
  {
    var b, es := t[inum].addrs[NDIRECT], Entries(blocks, t[inum]);
    OwnedRange(sb, blocks, t, owner, extra);
    NamedOwner(sb, blocks, t, owner, extra, Indirect(inum));
    forall e | e in es ensures e in owner && owner[e].Entry? && owner[e].inum == inum {
      var j :| 0 <= j < NINDIRECT && EntryOf(blocks, t[inum], j) != 0 && EntryOf(blocks, t[inum], j) == e;
      NamedOwner(sb, blocks, t, owner, extra, Entry(inum, j));
    }
    forall c | c in owner && owner[c].Entry? && owner[c].inum == inum ensures c in es {
      assert Named(blocks, t, owner[c]) == c;
    }
    LoseIndirect(sb, blocks, t, owner, extra, inum, {b} + es);
  }
}
