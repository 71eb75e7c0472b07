/** file.c's filewrite on a regular file: the data goes to writei in pieces, each in an operation of
    its own, small enough for the log. */
module FileWrite {
  import opened Blocks
  import opened FileSystem
  import opened FsLayout
  import opened FsOwnership
  import opened FsSpace
  import GroupCommit
  import opened Redo
  import opened Sets
  import opened Words
  import opened Wrappers

  /** The most bytes written in one operation. */
  const CHUNK: nat := (MAXOPBLOCKS - 1 - 1 - 2) / 2 * 512

  /** The bytes of a piece lie in four blocks at most. */
  lemma ChunkSpans(off: nat, n: nat)
    requires n <= CHUNK
    ensures Spanned(off, n) <= 4
  {}

  /** The map of a file system of up to BPB - 1 blocks, such as the one mkfs makes, is one block. */
  lemma OneMapBlock(sb: Super)
    requires sb.size <= BPB
    ensures |MapBlocks(sb)| <= 1
  {
    forall m | m in MapBlocks(sb) ensures m == sb.bmapstart {}
    SubsetSize(MapBlocks(sb), {sb.bmapstart});
  }

  /** An operation that writes one piece logs at most seven blocks where the free map is one block,
      and operations of seven blocks neither panic nor spill on a log of LOGSIZE blocks. */
  lemma PiecesAreSafe(sb: Super, off: nat, n: nat)
    requires sb.size <= BPB && n <= CHUNK
    ensures |MapBlocks(sb)| + 2 + Spanned(off, n) <= 7
    ensures !GroupCommit.CanPanic(GroupCommit.Limits(LOGSIZE, 7))
    ensures !GroupCommit.CanSpill(GroupCommit.Limits(LOGSIZE, 7))
  {
    ChunkSpans(off, n);
    OneMapBlock(sb);
    GroupCommit.CanPanicIff(GroupCommit.Limits(LOGSIZE, 7));
    GroupCommit.CanSpillIff(GroupCommit.Limits(LOGSIZE, 7));
  }

  /** How many of n bytes get written at off into a file of the given size: all of them if they fit
      into a file at all, else as many whole pieces as do. */
  function Fitting(size: nat, off: nat, n: nat): (k: nat) {
    if off > size || off > MAXFILE * BSIZE then 0
    else if off + n <= MAXFILE * BSIZE then n
    else CHUNK * ((MAXFILE * BSIZE - off) / CHUNK)
  }

  lemma FittingBounds(size: nat, off: nat, n: nat)
    ensures Fitting(size, off, n) <= n
    ensures Fitting(size, off, n) > 0 ==> off + Fitting(size, off, n) <= MAXFILE * BSIZE
  {}

  /** The next piece of n bytes, i of which are written. */
  function Piece(n: nat, i: nat): (m: nat)
    requires i < n
    ensures 0 < m <= CHUNK && i + m <= n
  {
    if n - i > CHUNK then CHUNK else n - i
  }

  /** filewrite's loop is at a piece's start, or done. */
  predicate AtPiece(n: nat, i: nat) { i == n || i % CHUNK == 0 }

  lemma Multiples(i: nat, room: nat)
    requires i % 1536 == 0
    ensures i + 1536 <= room <==> i + 1536 <= 1536 * (room / 1536)
    ensures i <= 1536 * (room / 1536) && i + 1536 > room ==> i == 1536 * (room / 1536)
    ensures (i + 1536) % 1536 == 0
  {}

  /** Which pieces are refused: the next one fits into a file exactly when it is among those counted. */
  lemma PieceFits(size: nat, off: nat, n: nat, i: nat)
    requires off <= size <= MAXFILE * BSIZE && i < n && AtPiece(n, i) && i <= Fitting(size, off, n)
    ensures var m := Piece(n, i);
      && AtPiece(n, i + m)
      && (off + i + m <= MAXFILE * BSIZE <==> i + m <= Fitting(size, off, n))
      && (off + i + m > MAXFILE * BSIZE ==> i == Fitting(size, off, n))
  {
    assert CHUNK == 1536;
    if off + n > MAXFILE * BSIZE { Multiples(i, MAXFILE * BSIZE - off); }
  }

  lemma FittingNeeds(size: nat, off: nat, n: nat)
    ensures Fitting(size, off, n) > 0 ==> off <= size
  {}

  /** Two writes one after the other are one write of both. */
  lemma SplicedTwice(c: seq<Byte>, off: nat, a: seq<Byte>, b: seq<Byte>)
    requires off <= |c|
    ensures off + |a| <= |Spliced(c, off, a)|
    ensures Spliced(Spliced(c, off, a), off + |a|, b) == Spliced(c, off, a + b)
  {}

  lemma GrownTwice(d0: Dinode, d1: Dinode, d2: Dinode, e1: nat, e2: nat)
    requires OnlyGrown(d0, d1, e1) && OnlyGrown(d1, d2, e2) && e1 <= e2
    ensures OnlyGrown(d0, d2, e2)
  {}

  /** From b0 and t0, file inum has got the bytes at off, and no other file or inode has changed. A
      write of nothing changes nothing, wherever it is. */
  ghost predicate Written(b0: Disk, t0: seq<Dinode>, b: Disk, t: seq<Dinode>, inum: nat, off: nat, src: seq<Byte>) {
    && IsTable(t0) && IsTable(t) && inum < |t| == |t0|
    && (forall i :: 0 <= i < |t| ==> t0[i].size <= MAXFILE * BSIZE && t[i].size <= MAXFILE * BSIZE)
    && (off > t0[inum].size ==> b == b0 && t == t0)
    && (off <= t0[inum].size ==>
          && Contents(b, t[inum]) == Spliced(Contents(b0, t0[inum]), off, src)
          && OnlyGrown(t0[inum], t[inum], off + |src|))
    && (forall i :: 0 <= i < |t| && i != inum ==> t[i] == t0[i] && Contents(b, t[i]) == Contents(b0, t0[i]))
  }

  lemma WroteIsWritten(sb: Super, b0: Disk, t0: seq<Dinode>, b: Disk, t: seq<Dinode>, inum: nat, off: nat,
                       src: seq<Byte>)
    requires Wrote(sb, b0, t0, b, t, inum, off, src)
    ensures Written(b0, t0, b, t, inum, off, src) && Supplied(sb, b0, t0, b, t, inum, off, |src|)
  {
    hide Contents, Spliced, OnlyGrown, KeepsAddrs, Supplied;
  }

  lemma WrittenNothing(b: Disk, t: seq<Dinode>, inum: nat, off: nat)
    requires IsTable(t) && inum < |t| && forall i :: 0 <= i < |t| ==> t[i].size <= MAXFILE * BSIZE
    ensures Written(b, t, b, t, inum, off, [])
  {}

  lemma WrittenMore(b0: Disk, t0: seq<Dinode>, b1: Disk, t1: seq<Dinode>, b2: Disk, t2: seq<Dinode>,
                    inum: nat, off: nat, a: seq<Byte>, b: seq<Byte>)
    requires Written(b0, t0, b1, t1, inum, off, a) && off <= t0[inum].size
    requires Written(b1, t1, b2, t2, inum, off + |a|, b)
    ensures Written(b0, t0, b2, t2, inum, off, a + b)
  {
    SplicedTwice(Contents(b0, t0[inum]), off, a, b);
    GrownTwice(t0[inum], t1[inum], t2[inum], off + |a|, off + |a| + |b|);
    assert |Contents(b1, t1[inum])| == t1[inum].size;
  }

  /** The file reaches at least to the end of what has been written. */
  lemma WrittenReaches(b0: Disk, t0: seq<Dinode>, b: Disk, t: seq<Dinode>, inum: nat, off: nat, src: seq<Byte>)
    requires Written(b0, t0, b, t, inum, off, src) && off <= t0[inum].size
    ensures inum < |t| && off + |src| <= t[inum].size <= MAXFILE * BSIZE
  {
    assert |Contents(b, t[inum])| == t[inum].size;
  }

  /** filewrite's loop after i bytes of src, from state b0 and t0. */
  ghost predicate Progress(b0: Disk, t0: seq<Dinode>, b: Disk, t: seq<Dinode>, inum: nat, off: nat,
                           src: seq<Byte>, i: nat) {
    && i <= |src| && inum < |t0| && AtPiece(|src|, i) && i <= Fitting(t0[inum].size, off, |src|)
    && Written(b0, t0, b, t, inum, off, src[..i])
  }

  lemma ProgressStarts(b: Disk, t: seq<Dinode>, inum: nat, off: nat, src: seq<Byte>)
    requires IsTable(t) && inum < |t| && forall i :: 0 <= i < |t| ==> t[i].size <= MAXFILE * BSIZE
    ensures Progress(b, t, b, t, inum, off, src, 0)
  {
    assert src[..0] == [];
    WrittenNothing(b, t, inum, off);
  }

  /** Whether writei takes the next piece. */
  lemma NextPiece(b0: Disk, t0: seq<Dinode>, b: Disk, t: seq<Dinode>, inum: nat, off: nat, src: seq<Byte>, i: nat)
    requires Progress(b0, t0, b, t, inum, off, src, i) && i < |src|
    ensures var m, k := Piece(|src|, i), Fitting(t0[inum].size, off, |src|);
      && inum < |t| && i <= k
      && if off + i <= t[inum].size && off + i + m <= MAXFILE * BSIZE then i + m <= k && AtPiece(|src|, i + m)
         else i == k
  {
    if off <= t0[inum].size {
      WrittenReaches(b0, t0, b, t, inum, off, src[..i]);
      PieceFits(t0[inum].size, off, |src|, i);
    } else {
      FittingNeeds(t0[inum].size, off, |src|);
    }
  }

  lemma PieceWritten(b0: Disk, t0: seq<Dinode>, b1: Disk, t1: seq<Dinode>, b2: Disk, t2: seq<Dinode>,
                     inum: nat, off: nat, src: seq<Byte>, i: nat)
    requires Progress(b0, t0, b1, t1, inum, off, src, i) && i < |src|
    requires i + Piece(|src|, i) <= Fitting(t0[inum].size, off, |src|) && AtPiece(|src|, i + Piece(|src|, i))
    requires Written(b1, t1, b2, t2, inum, off + i, src[i..i + Piece(|src|, i)])
    ensures Progress(b0, t0, b2, t2, inum, off, src, i + Piece(|src|, i))
  {
    hide Written, Piece, AtPiece;
    var m := Piece(|src|, i);
    FittingNeeds(t0[inum].size, off, |src|);
    WrittenMore(b0, t0, b1, t1, b2, t2, inum, off, src[..i], src[i..i + m]);
    assert src[..i] + src[i..i + m] == src[..i + m];
  }

  lemma ProgressMeans(b0: Disk, t0: seq<Dinode>, b: Disk, t: seq<Dinode>, inum: nat, off: nat,
                      src: seq<Byte>, i: nat)
    requires Progress(b0, t0, b, t, inum, off, src, i)
    ensures i <= |src| && inum < |t0| && i <= Fitting(t0[inum].size, off, |src|) <= |src|
    ensures Written(b0, t0, b, t, inum, off, src[..i])
  {
    FittingBounds(t0[inum].size, off, |src|);
  }

  /** The byte blocks of two pieces, one after the other, are those of both. */
  lemma SpannedPieces(off: nat, i: nat, m: nat)
    ensures BSIZE > 0
    ensures off / BSIZE <= (off + i) / BSIZE <= off / BSIZE + Spanned(off, i) <= off / BSIZE + Spanned(off, i + m)
    ensures m > 0 ==> (off + i) / BSIZE + Spanned(off + i, m) == off / BSIZE + Spanned(off, i + m)
  {}

  lemma SuppliedMore(sb: Super, b0: Disk, t0: seq<Dinode>, b1: Disk, t1: seq<Dinode>, b2: Disk, t2: seq<Dinode>,
                     inum: nat, off: nat, i: nat, m: nat)
    requires Supplied(sb, b0, t0, b1, t1, inum, off, i) && m > 0
    requires Supplied(sb, b1, t1, b2, t2, inum, off + i, m)
    ensures Supplied(sb, b0, t0, b2, t2, inum, off, i + m)
  {
    hide Provided, Spanned;
    SpannedPieces(off, i, m);
    var lo := off / BSIZE;
    ProvidedThen(sb, b0, t0, b1, t1, b2, t2, inum, lo, (off + i) / BSIZE, lo + Spanned(off, i),
                 lo + Spanned(off, i + m));
  }

  /** What a later piece needs and cannot get, the k bytes it is one of cannot get either. */
  lemma PieceLacks(sb: Super, b0: Disk, t0: seq<Dinode>, b1: Disk, t1: seq<Dinode>, inum: nat, off: nat, i: nat, m: nat,
                   k: nat)
    requires Supplied(sb, b0, t0, b1, t1, inum, off, i) && m > 0 && i + m <= k && IsTable(t1) && inum < |t1|
    requires |Needed(b1, t1, inum, off + i, m)| > |FreeBlocks(sb, b1)|
    ensures IsTable(t0) && inum < |t0| && |Needed(b0, t0, inum, off, k)| > |FreeBlocks(sb, b0)|
  {
    hide *;
    SuppliedIs(sb, b0, t0, b1, t1, inum, off, i);
    NeededIs(b0, t0, inum, off, k);
    NeededIs(b1, t1, inum, off + i, m);
    SpannedPieces(off, i, m);
    SpannedPieces(off, i + m, k - (i + m));
    var lo, mid := off / BSIZE, (off + i) / BSIZE;
    var hi, end := lo + Spanned(off, i), lo + Spanned(off, i + m);
    assert lo <= mid <= hi <= end == mid + Spanned(off + i, m);
    LackingThen(b0, t0, b1, t1, inum, lo, mid, hi, end);
    LackingGrows(b0, t0, inum, lo, end, lo + Spanned(off, k));
  }

  /** Below the size of a file the sums in writei do not wrap. */
  lemma NoWrap(off: nat, n: nat, size: nat)
    requires off <= size <= MAXFILE * BSIZE && n <= CHUNK
    ensures (off + n) % TWO32 == off + n && off < TWO32 && off + n < TWO32
  {}

  lemma Short(n: nat)
    ensures n <= CHUNK ==> n < TWO32
  {}

  /** struct file, of a regular file. */
  class File {
    const fs: FileSystem
    const ip: Inode
    var off: U32
    ghost var costs: seq<nat>             // how many blocks each operation so far has logged

    constructor (fs: FileSystem, ip: Inode)
      ensures this.fs == fs && this.ip == ip && off == 0 && costs == []
    {
      this.fs, this.ip, off, costs := fs, ip, 0, [];
    }

    lemma Facts()
      requires fs.Valid() && fs.Mirrors(ip)
      ensures IsTable(fs.table) && ip.inum < |fs.table| && fs.table[ip.inum].size == ip.size
      ensures forall i :: 0 <= i < |fs.table| ==> fs.table[i].size <= MAXFILE * BSIZE
    {}

    /** One round of the loop: begin_op, writei, end_op, and the new offset. Not ok is writei's -1. */
    method WritePiece(piece: seq<Byte>) returns (ok: Option<bool>)
      requires fs.Valid() && fs.Mirrors(ip) && 0 < |piece| <= CHUNK
      modifies this, fs, ip, ip.addrs
      ensures IsTable(old(fs.table)) && ip.inum < |old(fs.table)|
      ensures ok.None? ==> fs.MapFull()
      ensures ok.None? <==>
        && old(off) <= old(ip.size) && old(off) + |piece| <= MAXFILE * BSIZE
        && |Needed(old(fs.blocks), old(fs.table), ip.inum, old(off), |piece|)| > |FreeBlocks(fs.sb, old(fs.blocks))|
      ensures ok.Some? ==> fs.Valid() && fs.Mirrors(ip)
      ensures ok.Some? ==> (ok.value <==> old(off) <= old(ip.size) && old(off) + |piece| <= MAXFILE * BSIZE)
      ensures ok == Some(true) ==>
        && off == old(off) + |piece|
        && Written(old(fs.blocks), old(fs.table), fs.blocks, fs.table, ip.inum, old(off), piece)
        && Supplied(fs.sb, old(fs.blocks), old(fs.table), fs.blocks, fs.table, ip.inum, old(off), |piece|)
      ensures ok.Some? ==> Covered(old(fs.blocks), {}, fs.blocks, fs.logged)
      ensures ok == Some(false) ==> off == old(off) && fs.blocks == old(fs.blocks) && fs.table == old(fs.table)
      ensures ok.None? ==> costs == old(costs)
      ensures ok.Some? ==> costs == old(costs) + [|fs.logged|] && |fs.logged| <= |MapBlocks(fs.sb)| + 6
    {
      hide *;
      Facts();
      ChunkSpans(off, |piece|);
      if off <= ip.size { NoWrap(off, |piece|, ip.size); }
      Short(|piece|);
      fs.Begin(ip);
      var w := fs.Writei(ip, piece, off);
      if w.None? { return None; }
      assert fs.logged - {} == fs.logged;
      costs := costs + [|fs.logged|];
      if w.value < 0 { return Some(false); }
      WroteIsWritten(fs.sb, old(fs.blocks), old(fs.table), fs.blocks, fs.table, ip.inum, off, piece);
      Facts();
      off := off + w.value;
      ok := Some(true);
    }

    /** filewrite; None is balloc's panic, exactly if fewer blocks are free than the pieces that fit
        need. Otherwise those pieces are written, the result is n if all did and -1 otherwise, and a
        short writei, its other panic, never happens. Every operation logs few blocks. */
    method Filewrite(src: seq<Byte>) returns (r: Option<int>)
      requires fs.Valid() && fs.Mirrors(ip) && |src| < 0x8000_0000
      modifies this, fs, ip, ip.addrs
      ensures IsTable(old(fs.table)) && ip.inum < |old(fs.table)|
      ensures r.None? ==> fs.MapFull()
      ensures r.None? <==> var k := Fitting(old(ip.size), old(off), |src|);
        |Needed(old(fs.blocks), old(fs.table), ip.inum, old(off), k)| > |FreeBlocks(fs.sb, old(fs.blocks))|
      ensures r.Some? ==> fs.Valid() && fs.Mirrors(ip)
      ensures r.Some? ==> Supplied(fs.sb, old(fs.blocks), old(fs.table), fs.blocks, fs.table, ip.inum, old(off),
                                   Fitting(old(ip.size), old(off), |src|))
      ensures r.Some? ==> var k := Fitting(old(ip.size), old(off), |src|);
        && k <= |src| && r.value == (if k == |src| then |src| else -1) && off == old(off) + k
        && Written(old(fs.blocks), old(fs.table), fs.blocks, fs.table, ip.inum, old(off), src[..k])
      ensures old(costs) <= costs
      ensures forall j :: |old(costs)| <= j < |costs| ==> costs[j] <= |MapBlocks(fs.sb)| + 6
    {
      hide *;
      Facts();
      ghost var b0, t0, inum, off0 := fs.blocks, fs.table, ip.inum, off;
      ghost var k := Fitting(ip.size, off, |src|);
      ProgressStarts(b0, t0, inum, off0, src);
      SuppliedNothing(fs.sb, b0, t0, inum, off0);
      var n := |src|;
      var i := 0;
      while i < n
        invariant i <= n && off == off0 + i && fs.Valid() && fs.Mirrors(ip)
        invariant Progress(b0, t0, fs.blocks, fs.table, inum, off0, src, i)
        invariant Supplied(fs.sb, b0, t0, fs.blocks, fs.table, inum, off0, i)
        invariant old(costs) <= costs
        invariant forall j :: |old(costs)| <= j < |costs| ==> costs[j] <= |MapBlocks(fs.sb)| + 6
      {
        Facts();
        NextPiece(b0, t0, fs.blocks, fs.table, inum, off0, src, i);
        var n1 := Piece(n, i);
        ghost var b1, t1 := fs.blocks, fs.table;
        var ok := WritePiece(src[i..i + n1]);
        if ok.None? {
          PieceLacks(fs.sb, b0, t0, b1, t1, inum, off0, i, n1, k);
          return None;
        }
        if !ok.value { break; }
        SuppliedMore(fs.sb, b0, t0, b1, t1, fs.blocks, fs.table, inum, off0, i, n1);
        PieceWritten(b0, t0, b1, t1, fs.blocks, fs.table, inum, off0, src, i);
        i := i + n1;
      }
      ProgressMeans(b0, t0, fs.blocks, fs.table, inum, off0, src, i);
      SuppliedEnough(fs.sb, b0, t0, fs.blocks, fs.table, inum, off0, i);
      r := Some(if i == n then n else -1);
    }
  }
}
