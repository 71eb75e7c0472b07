/** How many disk blocks a write needs: the places it reaches that name no block yet, counted against
    the blocks the free map has left. */
module FsSpace {
  import opened Blocks
  import opened FsLayout
  import opened FsOwnership
  import opened Sets

  /** The places a write of byte blocks lo up to hi of inode inum reaches: one for each byte block, and
      the indirect address if one of them lies behind it. */
  predicate Reaches(inum: nat, lo: nat, hi: nat, s: Slot) {
    s.inum == inum &&
    match s
    case Direct(_, i) => lo <= i < hi
    case Indirect(_) => lo < hi && NDIRECT < hi
    case Entry(_, j) => lo <= NDIRECT + j < hi
  }

  /** Those of them that name no block. */
  ghost function Lacking(blocks: Disk, t: seq<Dinode>, inum: nat, lo: nat, hi: nat): (r: set<Slot>)
    requires IsTable(t) && inum < |t|
    ensures forall s :: s in r <==> IsSlot(t, s) && Reaches(inum, lo, hi, s) && Named(blocks, t, s) == 0
  {
    (set i | 0 <= i < NDIRECT && lo <= i < hi && t[inum].addrs[i] == 0 :: Direct(inum, i))
    + (if lo < hi && NDIRECT < hi && t[inum].addrs[NDIRECT] == 0 then {Indirect(inum)} else {})
    + (set j | 0 <= j < NINDIRECT && lo <= NDIRECT + j < hi && EntryOf(blocks, t[inum], j) == 0 :: Entry(inum, j))
  }

  /** The blocks balloc can still give out. */
  ghost function FreeBlocks(sb: Super, blocks: Disk): (r: set<nat>) {
    set b: nat | b < sb.size && !Used(sb, blocks, b)
  }

  /** The numbers from lo up to hi. */
  ghost function Range(lo: nat, hi: nat): (r: set<nat>)
    requires lo <= hi
    ensures |r| == hi - lo && forall b: nat :: b in r <==> lo <= b < hi
    decreases hi
  {
    if lo == hi then {} else Range(lo, hi - 1) + {hi - 1}
  }

  /** Every data block is free or owned. */
  lemma FreeCount(sb: Super, blocks: Disk, t: seq<Dinode>, owner: map<nat, Slot>)
    requires Owned(sb, blocks, t, owner, {})
    ensures |FreeBlocks(sb, blocks)| + |owner| == sb.size - sb.datastart
  {
    OwnedRange(sb, blocks, t, owner, {});
    hide Owned, Used;
    assert Range(sb.datastart, sb.size) == FreeBlocks(sb, blocks) + owner.Keys;
    assert FreeBlocks(sb, blocks) !! owner.Keys;
    assert |owner.Keys| == |owner|;
  }

  lemma NoneFreeIff(sb: Super, blocks: Disk)
    ensures (forall b: nat :: b < sb.size ==> Used(sb, blocks, b)) <==> |FreeBlocks(sb, blocks)| == 0
  {
    hide Used;
    assert |FreeBlocks(sb, blocks)| == 0 <==> FreeBlocks(sb, blocks) == {};
    if |FreeBlocks(sb, blocks)| == 0 {
      forall b: nat | b < sb.size ensures Used(sb, blocks, b) { assert b !in FreeBlocks(sb, blocks); }
    }
  }

  /** The owners determine what every slot names. */
  lemma NamesAreOwners(sb: Super, blocks: Disk, t: seq<Dinode>, owner: map<nat, Slot>, s: Slot, b: nat)
    requires Owned(sb, blocks, t, owner, {}) && IsTable(t) && IsSlot(t, s) && b != 0
    ensures Named(blocks, t, s) == b <==> b in owner && owner[b] == s
  {}

  /** Every place that byte blocks lo up to hi reach names a block; the other places, and those that
      named one before, name what they named. */
  ghost predicate Filled(b0: Disk, t0: seq<Dinode>, b: Disk, t: seq<Dinode>, inum: nat, lo: nat, hi: nat)
    requires IsTable(t0) && IsTable(t) && |t| == |t0|
  {
    && (forall s :: IsSlot(t0, s) && (!Reaches(inum, lo, hi, s) || Named(b0, t0, s) != 0) ==>
          Named(b, t, s) == Named(b0, t0, s))
    && (forall s :: IsSlot(t0, s) && Reaches(inum, lo, hi, s) ==> Named(b, t, s) != 0)
  }

  /** From b0 and t0 this has come about, at the cost of one free block for each place that lacked one. */
  ghost predicate Provided(sb: Super, b0: Disk, t0: seq<Dinode>, b: Disk, t: seq<Dinode>, inum: nat, lo: nat, hi: nat) {
    && IsTable(t0) && IsTable(t) && inum < |t0| == |t|
    && Filled(b0, t0, b, t, inum, lo, hi)
    && |FreeBlocks(sb, b)| == |FreeBlocks(sb, b0)| - |Lacking(b0, t0, inum, lo, hi)|
  }

  lemma ProvidedNothing(sb: Super, b: Disk, t: seq<Dinode>, inum: nat, lo: nat)
    requires IsTable(t) && inum < |t|
    ensures Lacking(b, t, inum, lo, lo) == {} && Provided(sb, b, t, b, t, inum, lo, lo)
  {
    hide Named, FreeBlocks;
    assert Lacking(b, t, inum, lo, lo) == {};
  }

  lemma SlotAnyTable(t: seq<Dinode>, t': seq<Dinode>, s: Slot)
    requires |t| == |t'|
    ensures IsSlot(t, s) <==> IsSlot(t', s)
  {}

  /** What the owners do not show has no influence. */
  lemma SameOwners(sb: Super, b: Disk, t: seq<Dinode>, b': Disk, t': seq<Dinode>, owner: map<nat, Slot>)
    requires Owned(sb, b, t, owner, {}) && Owned(sb, b', t', owner, {}) && IsTable(t) && IsTable(t') && |t'| == |t|
    ensures |FreeBlocks(sb, b')| == |FreeBlocks(sb, b)|
    ensures forall s :: IsSlot(t, s) ==> Named(b', t', s) == Named(b, t, s)
  {
    FreeCount(sb, b, t, owner);
    FreeCount(sb, b', t', owner);
    hide *;
    forall s | IsSlot(t, s) ensures Named(b', t', s) == Named(b, t, s) {
      SlotAnyTable(t, t', s);
      if Named(b, t, s) != 0 {
        NamesAreOwners(sb, b, t, owner, s, Named(b, t, s));
        NamesAreOwners(sb, b', t', owner, s, Named(b, t, s));
      }
      if Named(b', t', s) != 0 {
        NamesAreOwners(sb, b', t', owner, s, Named(b', t', s));
        NamesAreOwners(sb, b, t, owner, s, Named(b', t', s));
      }
    }
  }

  lemma ProvidedSame(sb: Super, b0: Disk, t0: seq<Dinode>, b: Disk, t: seq<Dinode>, b': Disk, t': seq<Dinode>,
                     owner: map<nat, Slot>, inum: nat, lo: nat, hi: nat)
    requires Provided(sb, b0, t0, b, t, inum, lo, hi)
    requires Owned(sb, b, t, owner, {}) && Owned(sb, b', t', owner, {}) && |t'| == |t| && IsTable(t')
    ensures Provided(sb, b0, t0, b', t', inum, lo, hi)
  {
    hide Owned, Named, FreeBlocks, Lacking, Reaches;
    SameOwners(sb, b, t, b', t', owner);
  }

  lemma ReachesThen(inum: nat, lo: nat, mid: nat, hi: nat, end: nat, s: Slot)
    requires lo <= mid <= hi <= end
    ensures Reaches(inum, lo, end, s) <==> Reaches(inum, lo, hi, s) || Reaches(inum, mid, end, s)
  {}

  /** Two ranges one after the other, overlapping or not. */
  lemma LackingThen(b0: Disk, t0: seq<Dinode>, b1: Disk, t1: seq<Dinode>, inum: nat,
                    lo: nat, mid: nat, hi: nat, end: nat)
    requires IsTable(t0) && IsTable(t1) && inum < |t0| == |t1|
    requires Filled(b0, t0, b1, t1, inum, lo, hi) && lo <= mid <= hi <= end
    ensures |Lacking(b0, t0, inum, lo, end)| == |Lacking(b0, t0, inum, lo, hi)| + |Lacking(b1, t1, inum, mid, end)|
  {
    var x, y, z := Lacking(b0, t0, inum, lo, hi), Lacking(b1, t1, inum, mid, end), Lacking(b0, t0, inum, lo, end);
    hide Named, Lacking, Reaches;
    forall s ensures s in z <==> s in x || s in y {
      ReachesThen(inum, lo, mid, hi, end, s);
      assert IsSlot(t1, s) <==> IsSlot(t0, s);
    }
    assert x !! y && z == x + y;
  }

  lemma FilledThen(b0: Disk, t0: seq<Dinode>, b1: Disk, t1: seq<Dinode>, b2: Disk, t2: seq<Dinode>,
                   inum: nat, lo: nat, mid: nat, hi: nat, end: nat)
    requires IsTable(t0) && IsTable(t1) && IsTable(t2) && |t0| == |t1| == |t2| && lo <= mid <= hi <= end
    requires Filled(b0, t0, b1, t1, inum, lo, hi) && Filled(b1, t1, b2, t2, inum, mid, end)
    ensures Filled(b0, t0, b2, t2, inum, lo, end)
  {
    hide Named, Reaches;
    forall s | IsSlot(t0, s)
      ensures !Reaches(inum, lo, end, s) || Named(b0, t0, s) != 0 ==> Named(b2, t2, s) == Named(b0, t0, s)
      ensures Reaches(inum, lo, end, s) ==> Named(b2, t2, s) != 0
    {
      ReachesThen(inum, lo, mid, hi, end, s);
      assert IsSlot(t1, s);
    }
  }

  lemma ProvidedThen(sb: Super, b0: Disk, t0: seq<Dinode>, b1: Disk, t1: seq<Dinode>, b2: Disk, t2: seq<Dinode>,
                     inum: nat, lo: nat, mid: nat, hi: nat, end: nat)
    requires Provided(sb, b0, t0, b1, t1, inum, lo, hi) && Provided(sb, b1, t1, b2, t2, inum, mid, end)
    requires lo <= mid <= hi <= end
    ensures Provided(sb, b0, t0, b2, t2, inum, lo, end)
  {
    LackingThen(b0, t0, b1, t1, inum, lo, mid, hi, end);
    FilledThen(b0, t0, b1, t1, b2, t2, inum, lo, mid, hi, end);
    hide Filled, FreeBlocks, Lacking;
  }

  /** A longer write lacks no less. */
  lemma LackingGrows(b: Disk, t: seq<Dinode>, inum: nat, lo: nat, hi: nat, end: nat)
    requires IsTable(t) && inum < |t| && lo <= hi <= end
    ensures |Lacking(b, t, inum, lo, hi)| <= |Lacking(b, t, inum, lo, end)|
  {
    SubsetSize(Lacking(b, t, inum, lo, hi), Lacking(b, t, inum, lo, end));
  }

  /** The next byte block of a write that goes on to end: if it cannot be provided, nor can the write. */
  lemma LackingNext(sb: Super, b0: Disk, t0: seq<Dinode>, b1: Disk, t1: seq<Dinode>, inum: nat,
                    lo: nat, hi: nat, end: nat)
    requires Provided(sb, b0, t0, b1, t1, inum, lo, hi) && lo <= hi < end
    ensures |Lacking(b1, t1, inum, hi, hi + 1)| > |FreeBlocks(sb, b1)| ==>
      |Lacking(b0, t0, inum, lo, end)| > |FreeBlocks(sb, b0)|
  {
    LackingThen(b0, t0, b1, t1, inum, lo, hi, hi, hi + 1);
    LackingGrows(b0, t0, inum, lo, hi + 1, end);
    hide Filled, FreeBlocks, Lacking;
  }

  lemma ProvidedEnough(sb: Super, b0: Disk, t0: seq<Dinode>, b: Disk, t: seq<Dinode>, inum: nat, lo: nat, hi: nat)
    requires Provided(sb, b0, t0, b, t, inum, lo, hi)
    ensures |Lacking(b0, t0, inum, lo, hi)| <= |FreeBlocks(sb, b0)|
  {}

  /** Blocks have been found for these places, which had none, and for no others. */
  ghost predicate Took(sb: Super, b0: Disk, t0: seq<Dinode>, b: Disk, t: seq<Dinode>, got: set<Slot>) {
    && IsTable(t0) && IsTable(t) && |t0| == |t|
    && (forall s :: s in got ==> IsSlot(t0, s))
    && (forall s :: IsSlot(t0, s) ==>
          if s in got then Named(b0, t0, s) == 0 != Named(b, t, s) else Named(b, t, s) == Named(b0, t0, s))
    && |FreeBlocks(sb, b)| == |FreeBlocks(sb, b0)| - |got|
  }

  lemma TookNothing(sb: Super, b: Disk, t: seq<Dinode>)
    requires IsTable(t)
    ensures Took(sb, b, t, b, t, {})
  {}

  lemma TookBoth(sb: Super, b0: Disk, t0: seq<Dinode>, b1: Disk, t1: seq<Dinode>, b2: Disk, t2: seq<Dinode>,
                 n1: set<Slot>, n2: set<Slot>)
    requires Took(sb, b0, t0, b1, t1, n1) && Took(sb, b1, t1, b2, t2, n2)
    ensures Took(sb, b0, t0, b2, t2, n1 + n2)
  {
    hide Named, FreeBlocks;
    forall s | s in n1 ensures s !in n2 { assert IsSlot(t1, s); }
    assert n1 !! n2;
  }

  /** A place for which no block has been sought. */
  lemma StillLacking(sb: Super, b0: Disk, t0: seq<Dinode>, b: Disk, t: seq<Dinode>, got: set<Slot>, s: Slot)
    requires Took(sb, b0, t0, b, t, got) && IsSlot(t0, s) && s !in got
    ensures Named(b, t, s) == Named(b0, t0, s)
    ensures |FreeBlocks(sb, b)| == |FreeBlocks(sb, b0)| - |got|
  {}

  /** One block for one place. */
  lemma TookOne(sb: Super, b0: Disk, t0: seq<Dinode>, o: map<nat, Slot>, b: Disk, t: seq<Dinode>, s: Slot, x: nat)
    requires Owned(sb, b0, t0, o, {}) && Owned(sb, b, t, o[x := s], {}) && x !in o && x != 0
    requires IsTable(t0) && IsTable(t)
    requires IsSlot(t0, s) && Named(b0, t0, s) == 0 && |t| == |t0|
    ensures Took(sb, b0, t0, b, t, {s})
  {
    FreeCount(sb, b0, t0, o);
    FreeCount(sb, b, t, o[x := s]);
    forall u | IsSlot(t0, u) ensures Named(b, t, u) == if u == s then x else Named(b0, t0, u) {
      var n0, n := Named(b0, t0, u), Named(b, t, u);
      if n0 != 0 { NamesAreOwners(sb, b0, t0, o, u, n0); NamesAreOwners(sb, b, t, o[x := s], u, n0); }
      if n != 0 { NamesAreOwners(sb, b, t, o[x := s], u, n); NamesAreOwners(sb, b0, t0, o, u, n); }
      NamesAreOwners(sb, b, t, o[x := s], u, x);
    }
    hide Owned, Named, FreeBlocks;
  }

  /** What one byte block lacks. */
  lemma LackingOne(b: Disk, t: seq<Dinode>, inum: nat, bn: nat)
    requires IsTable(t) && inum < |t| && bn < MAXFILE
    ensures bn < NDIRECT ==>
      Lacking(b, t, inum, bn, bn + 1) == if t[inum].addrs[bn] == 0 then {Direct(inum, bn)} else {}
    ensures bn >= NDIRECT ==>
      Lacking(b, t, inum, bn, bn + 1)
        == (if t[inum].addrs[NDIRECT] == 0 then {Indirect(inum)} else {})
           + (if EntryOf(b, t[inum], bn - NDIRECT) == 0 then {Entry(inum, bn - NDIRECT)} else {})
  {
    hide Lacking, EntryOf;
    if bn < NDIRECT {
      assert Lacking(b, t, inum, bn, bn + 1) == if t[inum].addrs[bn] == 0 then {Direct(inum, bn)} else {};
    } else {
      assert Lacking(b, t, inum, bn, bn + 1) ==
        (if t[inum].addrs[NDIRECT] == 0 then {Indirect(inum)} else {})
        + (if EntryOf(b, t[inum], bn - NDIRECT) == 0 then {Entry(inum, bn - NDIRECT)} else {});
    }
  }

  lemma TookProvides(sb: Super, b0: Disk, t0: seq<Dinode>, b: Disk, t: seq<Dinode>, got: set<Slot>,
                     inum: nat, lo: nat, hi: nat)
    requires Took(sb, b0, t0, b, t, got) && inum < |t0| && got == Lacking(b0, t0, inum, lo, hi)
    ensures Provided(sb, b0, t0, b, t, inum, lo, hi)
  {
    hide Named, FreeBlocks, Lacking;
  }
}
