/** The logging layer over the block cache: struct log, the commit and the recovery loops, and
    the critical sections of begin_op, end_op and log_write. */
module Logging {
  import opened Blocks
  import opened Words
  import opened Redo
  import opened BufferCache
  import opened GroupCommit

  /** A set listed by n distinct or repeated elements has at most n members. */
  lemma {:induction false} ElemsSize(ts: seq<nat>)
    ensures |Elems(ts)| <= |ts|
    ensures Distinct(ts) ==> |Elems(ts)| == |ts|
  {
    if ts != [] {
      var front := ts[..|ts| - 1];
      ElemsSize(front);
      assert Elems(ts) == Elems(front) + {ts[|ts| - 1]} by {
        forall x | x in Elems(ts) ensures x in Elems(front) + {ts[|ts| - 1]} {
          var i :| 0 <= i < |ts| && ts[i] == x;
          assert i < |front| ==> front[i] == x;
        }
        forall x | x in Elems(front) ensures x in Elems(ts) {
          var i :| 0 <= i < |front| && front[i] == x;
          assert ts[i] == x;
        }
      }
    }
  }

  /** Locked by its only user, and not changed yet. */
  ghost predicate Held(b: Buf, disk: Disk) {
    && b.refcnt == 1 && b.locked && b.valid
    && b.blockno < |disk| && (b.dirty || b.data == disk[b.blockno])
  }

  /** Nobody holds a buffer except the caller, who holds each of a and b once. */
  ghost predicate Holding(bufs: seq<Buf>, disk: Disk, a: nat, b: nat)
    requires |bufs| == NBUF + 1
  {
    && a < NBUF && b < NBUF
    && (forall i :: 0 <= i < NBUF && i != a && i != b ==> bufs[i].refcnt == 0)
    && Held(bufs[a], disk) && Held(bufs[b], disk)
  }

  lemma HomeAvailable(bufs: seq<Buf>, disk: Disk, l: nat, home: nat)
    requires Consistent(bufs, disk) && l < NBUF
    requires forall i :: 0 <= i < NBUF && i != l ==> bufs[i].refcnt == 0
    requires home in DirtyBlocks(bufs) || |DirtyBlocks(bufs)| + 1 < NBUF
    ensures Available(bufs, home)
  {
    if home !in DirtyBlocks(bufs) {
      IdleExists(bufs, disk, {l});
    }
  }

  /** A clean buffer that has just been read shows the disk's contents. */
  lemma CleanIsDisk(t: seq<Buf>, disk: Disk, b: nat, s: seq<Buf>)
    requires Consistent(s, disk) && Consistent(t, disk) && b < NBUF && t[b].valid && !t[b].dirty
    requires Views(s, disk) == Views(t, disk) && DirtyBlocks(s) == DirtyBlocks(t)
    requires Unlocked(s, t[b].blockno)
    ensures t[b].data == disk[t[b].blockno]
  {
    var c := t[b].blockno;
    ViewIsCached(t, disk, b);
    assert View(s, disk, c) == Views(s, disk)[c] == Views(t, disk)[c] == View(t, disk, c);
    PinnedIffDirty(t, disk, b);
    if View(s, disk, c) != disk[c] {
      OnlyPinnedDiffer(s, disk, c);
    }
  }

  /** bread by the only user: the block is locked and unchanged. */
  method BreadQuiet(cache: Cache, blockno: nat) returns (b: nat)
    requires cache.Valid() && Quiet(cache.buf[..]) && blockno < |cache.disk|
    requires |cache.Pinned()| < NBUF
    modifies cache, cache.buf
    ensures cache.Valid() && Holding(cache.buf[..], cache.disk, b, b)
    ensures cache.buf[b].blockno == blockno && cache.buf[b].data == cache.Shown()[blockno]
    ensures cache.buf[b].dirty <==> blockno in cache.Pinned()
    ensures cache.disk == old(cache.disk) && cache.writes == old(cache.writes)
    ensures cache.Shown() == old(cache.Shown()) && cache.Pinned() == old(cache.Pinned())
  {
    IdleExists(cache.buf[..], cache.disk, {});
    var r := cache.Bread(blockno);
    b := r.value;
    if !cache.buf[b].dirty { CleanIsDisk(cache.buf[..], cache.disk, b, old(cache.buf[..])); }
  }

  /** The two breads of write_log and install_trans: log block first. */
  method ReadBoth(cache: Cache, logblk: nat, home: nat) returns (l: nat, h: nat)
    requires cache.Valid() && Quiet(cache.buf[..])
    requires logblk < |cache.disk| && home < |cache.disk| && logblk != home
    requires |cache.Pinned()| < NBUF
    requires home in cache.Pinned() || |cache.Pinned()| + 1 < NBUF
    modifies cache, cache.buf
    ensures cache.Valid() && l != h && Holding(cache.buf[..], cache.disk, l, h)
    ensures cache.buf[l].blockno == logblk && cache.buf[l].data == cache.Shown()[logblk]
    ensures cache.buf[h].blockno == home && cache.buf[h].data == cache.Shown()[home]
    ensures cache.disk == old(cache.disk) && cache.writes == old(cache.writes)
    ensures cache.Shown() == old(cache.Shown()) && cache.Pinned() == old(cache.Pinned())
  {
    l := BreadQuiet(cache, logblk);
    HomeAvailable(cache.buf[..], cache.disk, l, home);
    ghost var s := cache.buf[..];
    var r := cache.Bread(home);
    h := r.value;
    if !cache.buf[h].dirty { CleanIsDisk(cache.buf[..], cache.disk, h, s); }
  }

  /** New data into a buffer the caller holds, and bwrite: one atomic block write. */
  method StoreAndWrite(cache: Cache, dst: nat, src: nat, c: Block)
    requires cache.Valid() && Holding(cache.buf[..], cache.disk, dst, src)
    modifies cache, cache.buf
    ensures cache.Valid() && Holding(cache.buf[..], cache.disk, dst, src)
    ensures forall i :: 0 <= i < NBUF ==> cache.buf[i].blockno == old(cache.buf[i]).blockno
    ensures var d := old(cache.buf[dst]).blockno;
      && cache.disk == old(cache.disk)[d := c]
      && cache.writes == old(cache.writes) + [Write(d, c)]
      && cache.Shown() == old(cache.Shown())[d := c]
      && cache.Pinned() == old(cache.Pinned()) - {d}
  {
    OthersElsewhere(cache.buf[..], cache.disk, dst);
    cache.Store(dst, c);
    cache.Bwrite(dst);
  }

  /** brelse of the only reference. */
  method Release(cache: Cache, a: nat, b: nat)
    requires cache.Valid() && Holding(cache.buf[..], cache.disk, a, b)
    modifies cache, cache.buf
    ensures cache.Valid() && cache.buf[a].refcnt == 0
    ensures cache.disk == old(cache.disk) && cache.writes == old(cache.writes)
    ensures if a == b then Quiet(cache.buf[..]) else Holding(cache.buf[..], cache.disk, b, b)
    ensures cache.Shown() == old(cache.Shown()) && cache.Pinned() == old(cache.Pinned())
  {
    ghost var s := cache.buf[..];
    cache.Brelse(a);
    ghost var t := cache.buf[..];
    assert forall i :: 0 <= i < NBUF && i != a ==> SameBuf(t[i], s[i]);
    assert t[a].refcnt == 0;
  }

  /** One block copied between the log area and a home block, either way. */
  method Transfer(cache: Cache, logblk: nat, home: nat, toLog: bool)
    requires cache.Valid() && Quiet(cache.buf[..])
    requires logblk < |cache.disk| && home < |cache.disk| && logblk != home
    requires |cache.Pinned()| < NBUF
    requires home in cache.Pinned() || |cache.Pinned()| + 1 < NBUF
    modifies cache, cache.buf
    ensures cache.Valid() && Quiet(cache.buf[..])
    ensures var dst, src := if toLog then logblk else home, if toLog then home else logblk;
      var c := old(cache.Shown())[src];
      && cache.disk == old(cache.disk)[dst := c]
      && cache.writes == old(cache.writes) + [Write(dst, c)]
      && cache.Shown() == old(cache.Shown())[dst := c]
      && cache.Pinned() == old(cache.Pinned()) - {dst}
  {
    var l, h := ReadBoth(cache, logblk, home);
    var dst, src := if toLog then l else h, if toLog then h else l;
    StoreAndWrite(cache, dst, src, cache.buf[src].data);
    Release(cache, src, dst);
    Release(cache, dst, dst);
  }

  lemma InBounds(cache: Cache, b: nat)
    requires cache.Valid() && b < NBUF && cache.buf[b].valid
    ensures cache.buf[b].blockno < |cache.disk|
  {}

  /** The log's own blocks are never among its targets. */
  lemma NotListed(start: nat, size: nat, ts: seq<nat>, nblocks: nat)
    requires Fits(nblocks, start, size, ts)
    ensures forall b :: !Home(start, size, b) ==> b !in Elems(ts)
  {}

  /** write_log fills the log area and touches nothing else. */
  lemma LogAreaHolds(d: Disk, v: Disk, start: nat, size: nat, ts: seq<nat>)
    requires |d| == |v| && Fits(|d|, start, size, ts)
    ensures InRange(|d|, LogWrites(v, start, ts))
    ensures var d1 := Apply(d, LogWrites(v, start, ts));
      && d1[start] == d[start]
      && forall i :: 0 <= i < |ts| ==> d1[start + 1 + i] == v[ts[i]]
  {
    var lw := LogWrites(v, start, ts);
    ApplyMiss(d, lw, start);
    forall i | 0 <= i < |ts| ensures Apply(d, lw)[start + 1 + i] == v[ts[i]] {
      ApplyHit(d, lw, start + 1 + i, i);
    }
  }

  /** Installing and then clearing the header is what Recovered describes. */
  lemma RecoverChain(d: Disk, start: nat, size: nat)
    requires WellFormed(d, start, size)
    ensures var ins := InstallWrites(d, start, Redo.Targets(d[start]));
      var h := PutHeader(d[start], []);
      && InRange(|d|, ins)
      && RecoverWrites(d, start, size) == ins + [Write(start, h)]
      && Apply(d, ins)[start] == d[start]
      && Recovered(d, start, size) == Apply(d, ins)[start := h]
      && Count(h) == 0
  {
    var ins := InstallWrites(d, start, Redo.Targets(d[start]));
    ApplyMiss(d, ins, start);
    ApplyLast(d, ins, Write(start, PutHeader(d[start], [])));
    HeaderRoundTrip(d[start], []);
  }

  lemma ApplyPieces(d: Disk, a: seq<Write>, w: Write, b: seq<Write>, x: Write)
    requires InRange(|d|, a) && InRange(|d|, b) && w.bno < |d| && x.bno < |d|
    ensures InRange(|d|, a + [w] + b + [x])
    ensures Apply(d, a + [w] + b + [x]) == Apply(Apply(d, a)[w.bno := w.data], b)[x.bno := x.data]
  {
    ApplyLast(d, a, w);
    ApplyConcat(d, a + [w], b);
    ApplyLast(d, a + [w] + b, x);
  }

  /** The four pieces of commit() put together. */
  lemma CommitChain(d: Disk, v: Disk, start: nat, size: nat, ts: seq<nat>, s2: Disk)
    requires |d| == |v| == |s2| && Fits(|d|, start, size, ts)
    requires forall i :: 0 <= i < |ts| ==> s2[start + 1 + i] == v[ts[i]]
    ensures var lw, ins := LogWrites(v, start, ts), InstallWrites(s2, start, ts);
      var h := PutHeader(d[start], ts);
      var ws := CommitWrites(d, v, start, size, ts);
      && InRange(|d|, lw) && InRange(|d|, ins)
      && ws == lw + [Write(start, h)] + ins + [Write(start, PutHeader(h, []))]
      && Apply(d, ws) == Apply(Apply(d, lw)[start := h], ins)[start := PutHeader(h, [])]
  {
    var lw, ins := LogWrites(v, start, ts), InstallWrites(s2, start, ts);
    var h := PutHeader(d[start], ts);
    assert ins == seq(|ts|, i requires 0 <= i < |ts| => Write(ts[i], v[ts[i]]));
    ApplyPieces(d, lw, Write(start, h), ins, Write(start, PutHeader(h, [])));
  }

  /** After commit() the log is empty and every home block holds what bread showed before it. */
  lemma AfterCommit(d: Disk, v: Disk, start: nat, size: nat, ts: seq<nat>, d': Disk)
    requires |d| == |v| && Fits(|d|, start, size, ts)
    requires forall b :: 0 <= b < |d| && b !in Elems(ts) ==> v[b] == d[b]
    requires d' == Apply(d, CommitWrites(d, v, start, size, ts))
    ensures Count(d'[start]) == 0
    ensures forall b :: 0 <= b < |d| && Home(start, size, b) ==> d'[b] == v[b]
  {
    AfterClear(d, v, start, size, ts);
    var ws := CommitWrites(d, v, start, size, ts);
    assert ws[..2 * |ts| + 2] == ws;
    HeaderRoundTrip(PutHeader(d[start], ts), []);
  }

  lemma ShownIsDisk(cache: Cache)
    requires cache.Valid() && Quiet(cache.buf[..])
    ensures forall b :: 0 <= b < |cache.disk| && b !in cache.Pinned() ==> cache.Shown()[b] == cache.disk[b]
    ensures cache.Pinned() == {} ==> cache.Shown() == cache.disk
  {}

  lemma EmptyElems()
    ensures Elems([]) == {}
  {}

  lemma ElemsTail(ts: seq<nat>, k: nat)
    requires k < |ts| && Distinct(ts)
    ensures Elems(ts[k..]) - {ts[k]} == Elems(ts[k + 1..])
  {}

  /** With nobody holding a buffer, bread shows the disk for every block that is not pinned. */
  lemma QuietShown(bufs: seq<Buf>, disk: Disk, b: nat)
    requires Consistent(bufs, disk) && Quiet(bufs) && b < |disk| && b !in DirtyBlocks(bufs)
    ensures Views(bufs, disk)[b] == disk[b]
  {}

  /** struct log. The block cache below it is the one every bread and bwrite goes to. */
  class Log {
    const cache: Cache
    const start: nat
    const size: nat
    var outstanding: int
    var committing: bool
    var n: nat                // lh.n
    var block: array<nat>     // lh.block

    ghost predicate Shape()
      reads this, block, cache, cache.buf
    {
      && cache.Valid() && cache.buf.Length == NBUF + 1
      && block.Length == LOGSIZE && n <= LOGSIZE && block as object != cache.buf
      && start + size <= |cache.disk| <= TWO32
    }

    ghost function Targets(): (ts: seq<nat>)
      reads this, block
      requires n <= block.Length
    {
      block[..n]
    }

    ghost function State(): (t: Tx)
      reads this, block
      requires n <= block.Length
    {
      Tx(outstanding, committing, Targets())
    }

    /** Between commits: the log on disk is empty, the cache pins exactly the listed blocks, each
        listed once. */
    ghost predicate Valid()
      reads this, block, cache, cache.buf
    {
      && Shape()
      && Fits(|cache.disk|, start, size, Targets())
      && Distinct(Targets())
      && cache.Pinned() == Elems(Targets())
      && Count(cache.disk[start]) == 0
    }

    /** initlog on a cache fresh from binit: recovery runs before anything else. */
    constructor (cache: Cache, start: nat, size: nat)
      requires cache.Valid() && Quiet(cache.buf[..]) && cache.Pinned() == {}
      requires WellFormed(cache.disk, start, size)
      modifies cache, cache.buf
      ensures this.cache == cache && this.start == start && this.size == size && fresh(block)
      ensures Valid() && Quiet(cache.buf[..])
      ensures State() == Tx(0, false, [])
      ensures cache.disk == Recovered(old(cache.disk), start, size)
      ensures cache.writes == old(cache.writes) + RecoverWrites(old(cache.disk), start, size)
      ensures cache.Shown() == cache.disk
    {
      this.cache, this.start, this.size := cache, start, size;
      outstanding, committing, n := 0, false, 0;
      block := new nat[LOGSIZE];
      new;
      RecoverFromLog();
    }

    /** read_head. */
    method ReadHead()
      requires Shape() && Quiet(cache.buf[..]) && cache.Pinned() == {}
      requires WellFormed(cache.disk, start, size)
      modifies this`n, block, cache, cache.buf
      ensures Shape() && Quiet(cache.buf[..]) && cache.Pinned() == {}
      ensures Count(cache.disk[start]) <= LOGSIZE && Targets() == Redo.Targets(cache.disk[start])
      ensures cache.disk == old(cache.disk) && cache.writes == old(cache.writes)
    {
      QuietShown(cache.buf[..], cache.disk, start);
      var b := BreadQuiet(cache, start);
      ghost var h := cache.disk[start];
      assert cache.buf[b].data == h;
      n := Word(cache.buf[b].data, 0);
      var i := 0;
      while i < n
        invariant 0 <= i <= n <= LOGSIZE
        invariant forall j :: 0 <= j < i ==> block[j] == Word(h, j + 1)
        modifies block
      {
        block[i] := Word(cache.buf[b].data, i + 1);
        i := i + 1;
      }
      assert Targets() == Redo.Targets(h);
      Release(cache, b, b);
    }

    /** recover_from_log. */
    method RecoverFromLog()
      requires Shape() && Quiet(cache.buf[..]) && cache.Pinned() == {}
      requires WellFormed(cache.disk, start, size)
      modifies this`n, block, cache, cache.buf
      ensures Valid() && Quiet(cache.buf[..]) && Targets() == []
      ensures cache.disk == Recovered(old(cache.disk), start, size)
      ensures cache.writes == old(cache.writes) + RecoverWrites(old(cache.disk), start, size)
      ensures cache.Shown() == cache.disk
    {
      hide Cache.Valid, Quiet, Views, DirtyBlocks, Elems, InstallWrites, Apply, PutHeader, Count, Word;
      ReadHead();
      ghost var d, ts := cache.disk, Targets();
      ShownIsDisk(cache);
      InstallTrans();
      n := 0;
      ShownIsDisk(cache);
      assert Targets() == [];
      RecoverChain(d, start, size);
      WriteHead();
      ShownIsDisk(cache);
      EmptyElems();
    }

    /** commit: on the disk it is the write sequence CommitWrites, nothing else; afterwards every
        pinned block is at home and unpinned, and what bread shows of home blocks is unchanged.
        n < NBUF keeps one buffer for the log block being copied. */
    method Commit()
      requires Valid() && Quiet(cache.buf[..]) && n < NBUF
      modifies this`n, cache, cache.buf
      ensures Valid() && Quiet(cache.buf[..]) && Targets() == []
      ensures old(n) == 0 ==> cache.disk == old(cache.disk) && cache.writes == old(cache.writes)
      ensures old(n) > 0 ==>
        var ws := CommitWrites(old(cache.disk), old(cache.Shown()), start, size, old(Targets()));
        && cache.writes == old(cache.writes) + ws
        && cache.disk == Apply(old(cache.disk), ws)
      ensures forall b :: 0 <= b < |cache.disk| && Home(start, size, b) ==>
        cache.Shown()[b] == old(cache.Shown())[b] == cache.disk[b]
    {
      ShownIsDisk(cache);
      if n > 0 {
        WriteAndInstall();
        ShownIsDisk(cache);
        AfterCommit(old(cache.disk), old(cache.Shown()), start, size, old(Targets()), cache.disk);
        n := 0;
      }
    }

    /** The two halves of commit() around its header writes. */
    method WriteAndInstall()
      requires Valid() && Quiet(cache.buf[..]) && 0 < n < NBUF
      modifies this`n, cache, cache.buf
      ensures Shape() && Quiet(cache.buf[..]) && n == 0 && cache.Pinned() == {}
      ensures
        var ws := CommitWrites(old(cache.disk), old(cache.Shown()), start, size, old(Targets()));
        && cache.writes == old(cache.writes) + ws
        && cache.disk == Apply(old(cache.disk), ws)
    {
      hide Cache.Valid, Quiet, Views, DirtyBlocks, Elems, Count, LogWrites, InstallWrites, CommitWrites, Apply,
        PutHeader, Distinct;
      ghost var d, v, ts := cache.disk, cache.Shown(), Targets();
      ElemsSize(ts);
      NotListed(start, size, ts, |d|);
      ShownIsDisk(cache);
      WriteLog();
      LogAreaHolds(d, v, start, size, ts);
      ShownIsDisk(cache);
      WriteHead();
      ghost var s2 := cache.Shown();
      assert ts[0..] == ts;
      InstallTrans();
      n := 0;
      assert Targets() == [];
      WriteHead();
      CommitChain(d, v, start, size, ts, s2);
    }

    /** One round of write_log's loop. */
    method LogBlock(tail: nat)
      requires Shape() && Quiet(cache.buf[..]) && tail < n < NBUF
      requires Fits(|cache.disk|, start, size, Targets())
      requires cache.Pinned() == Elems(Targets())
      modifies cache, cache.buf
      ensures Shape() && Quiet(cache.buf[..])
      ensures var c := old(cache.Shown())[block[tail]];
        && cache.writes == old(cache.writes) + [Write(start + 1 + tail, c)]
        && cache.disk == old(cache.disk)[start + 1 + tail := c]
        && cache.Shown() == old(cache.Shown())[start + 1 + tail := c]
      ensures cache.Pinned() == old(cache.Pinned())
    {
      hide Cache.Valid, Quiet, Views, DirtyBlocks;
      ghost var ts := Targets();
      ElemsSize(ts);
      assert ts[tail] in Elems(ts);
      assert start + tail + 1 !in Elems(ts);
      Transfer(cache, start + tail + 1, block[tail], true);
    }

    /** write_log: pinned blocks go from the cache to the log area. */
    method WriteLog()
      requires Shape() && Quiet(cache.buf[..])
      requires Fits(|cache.disk|, start, size, Targets())
      requires cache.Pinned() == Elems(Targets()) && n < NBUF
      modifies cache, cache.buf
      ensures Shape() && Quiet(cache.buf[..])
      ensures var ws := LogWrites(old(cache.Shown()), start, Targets());
        && InRange(|old(cache.disk)|, ws)
        && cache.writes == old(cache.writes) + ws
        && cache.disk == Apply(old(cache.disk), ws)
      ensures cache.Pinned() == old(cache.Pinned())
      ensures forall b :: 0 <= b < |cache.disk| && (b <= start || start + size <= b) ==>
        cache.Shown()[b] == old(cache.Shown())[b]
    {
      hide Cache.Valid, Quiet, Views, DirtyBlocks, Elems;
      ghost var ws := LogWrites(cache.Shown(), start, Targets());
      var tail := 0;
      while tail < n
        invariant 0 <= tail <= n
        invariant Shape() && Quiet(cache.buf[..])
        invariant |cache.disk| == |old(cache.disk)|
        invariant cache.writes == old(cache.writes) + ws[..tail]
        invariant cache.disk == Apply(old(cache.disk), ws[..tail])
        invariant cache.Pinned() == old(cache.Pinned())
        invariant forall b :: 0 <= b < |cache.disk| && (b <= start || start + size <= b) ==>
          cache.Shown()[b] == old(cache.Shown())[b]
      {
        LogBlock(tail);
        assert ws[..tail + 1] == ws[..tail] + [ws[tail]];
        ApplyLast(old(cache.disk), ws[..tail], ws[tail]);
        tail := tail + 1;
      }
      assert ws[..n] == ws;
    }

    /** install_trans finds its home block pinned during commit, and nothing pinned in recovery. */
    ghost predicate Installing(tail: nat)
      reads this, block, cache, cache.buf
      requires Shape() && tail <= n
    {
      || cache.Pinned() == {}
      || (cache.Pinned() == Elems(Targets()[tail..]) && Distinct(Targets()) && n < NBUF)
    }

    /** One round of install_trans's loop. */
    method InstallBlock(tail: nat)
      requires Shape() && Quiet(cache.buf[..]) && tail < n
      requires Fits(|cache.disk|, start, size, Targets())
      requires Installing(tail)
      modifies cache, cache.buf
      ensures Shape() && Quiet(cache.buf[..]) && Installing(tail + 1)
      ensures var c := old(cache.Shown())[start + 1 + tail];
        && cache.writes == old(cache.writes) + [Write(block[tail], c)]
        && cache.disk == old(cache.disk)[block[tail] := c]
        && cache.Shown() == old(cache.Shown())[block[tail] := c]
    {
      hide Cache.Valid, Quiet, Views, DirtyBlocks;
      ghost var ts := Targets();
      ElemsSize(ts[tail..]);
      assert ts[tail..][0] == ts[tail];
      if cache.Pinned() != {} { ElemsTail(ts, tail); }
      Transfer(cache, start + tail + 1, block[tail], false);
    }

    /** install_trans: log blocks go home. */
    method InstallTrans()
      requires Shape() && Quiet(cache.buf[..])
      requires Fits(|cache.disk|, start, size, Targets())
      requires Installing(0)
      modifies cache, cache.buf
      ensures Shape() && Quiet(cache.buf[..]) && cache.Pinned() == {}
      ensures var ws := InstallWrites(old(cache.Shown()), start, Targets());
        && InRange(|old(cache.disk)|, ws)
        && cache.writes == old(cache.writes) + ws
        && cache.disk == Apply(old(cache.disk), ws)
      ensures forall b :: 0 <= b < |cache.disk| && !Home(start, size, b) ==> cache.Shown()[b] == old(cache.Shown())[b]
    {
      hide Cache.Valid, Quiet, Views, DirtyBlocks, Elems, Apply;
      ghost var ws := InstallWrites(cache.Shown(), start, Targets());
      var tail := 0;
      ApplyNothing(cache.disk);
      while tail < n
        invariant 0 <= tail <= n
        invariant Shape() && Quiet(cache.buf[..]) && Installing(tail)
        invariant |cache.disk| == |old(cache.disk)|
        invariant cache.writes == old(cache.writes) + ws[..tail]
        invariant cache.disk == Apply(old(cache.disk), ws[..tail])
        invariant forall b :: 0 <= b < |cache.disk| && !Home(start, size, b) ==>
          cache.Shown()[b] == old(cache.Shown())[b]
      {
        InstallBlock(tail);
        assert ws[..tail + 1] == ws[..tail] + [ws[tail]];
        ApplyLast(old(cache.disk), ws[..tail], ws[tail]);
        tail := tail + 1;
      }
      assert ws[..n] == ws;
      assert Targets()[n..] == [];
      EmptyElems();
    }

    /** log_write on a locked buffer. Not ok is one of its two panics. */
    method LogWrite(b: nat) returns (ok: bool)
      requires Valid() && b < NBUF && cache.buf[b].locked && cache.buf[b].valid
      requires Home(start, size, cache.buf[b].blockno)
      modifies this`n, block, cache.buf
      ensures ok <==> Room(old(State()), size)
      ensures Valid()
      ensures ok ==> State() == Record(old(State()), cache.buf[b].blockno)
      ensures ok ==> cache.buf[..] == old(cache.buf[..])[b := old(cache.buf[b]).(dirty := true)]
      ensures ok ==> cache.Shown() == old(cache.Shown())
      ensures !ok ==> State() == old(State()) && cache.buf[..] == old(cache.buf[..])
    {
      hide Cache.Valid, Views, DirtyBlocks, Elems, Distinct, Count;
      if n >= LOGSIZE || n >= size - 1 { return false; }
      if outstanding < 1 { return false; }
      var blockno := cache.buf[b].blockno;
      InBounds(cache, b);
      ghost var ts := Targets();
      var i := 0;
      while i < n
        invariant 0 <= i <= n
        invariant forall j :: 0 <= j < i ==> block[j] != blockno
      {
        if block[i] == blockno { break; }
        i := i + 1;
      }
      assert blockno in ts <==> i < n;
      block[i] := blockno;
      if i == n { n := n + 1; }
      assert Targets() == Absorb(ts, blockno);
      AbsorbKeeps(ts, blockno);
      cache.Pin(b);
      ok := true;
    }

    /** The typical use of the log: bread, modify, log_write, brelse. Afterwards bread shows the new
        data while the disk, home block included, is still what it was. Not ok is a panic. */
    method Update(blockno: nat, data: Block) returns (ok: bool)
      requires Valid() && blockno < |cache.disk| && Home(start, size, blockno)
      requires Unlocked(cache.buf[..], blockno)
      modifies this`n, block, cache, cache.buf
      ensures ok <==> Available(old(cache.buf[..]), blockno) && Room(old(State()), size)
      ensures cache.disk == old(cache.disk) && cache.writes == old(cache.writes)
      ensures ok ==> Valid() && State() == Record(old(State()), blockno)
      ensures ok ==> cache.Shown() == old(cache.Shown())[blockno := data]
      ensures ok ==> forall i :: 0 <= i < NBUF ==> cache.buf[i].refcnt == old(cache.buf[i]).refcnt
    {
      hide Ring, Consistent, MostRecentFirst, Views, DirtyBlocks, Elems, Distinct, Count, Apply;
      var r := cache.Bread(blockno);
      if r.None? { return false; }
      cache.Store(r.value, data);
      ok := LogWrite(r.value);
      if !ok { return; }
      cache.Brelse(r.value);
    }

    /** begin_op's critical section. Not admitted means it sleeps and tries again. */
    method BeginOp() returns (admitted: bool)
      requires Valid()
      modifies this`outstanding
      ensures Valid()
      ensures admitted <==> Admits(old(State()))
      ensures State() == if admitted then Begin(old(State())) else old(State())
    {
      admitted := !committing && n + (outstanding + 1) * MAXOPBLOCKS <= LOGSIZE;
      if admitted { outstanding := outstanding + 1; }
    }

    /** end_op by a process in an operation: both critical sections and, for the last operation
        out, the commit between them. */
    method EndOp()
      requires Valid() && outstanding >= 1 && !committing
      requires outstanding == 1 ==> Quiet(cache.buf[..]) && n < NBUF
      modifies this`outstanding, this`committing, this`n, cache, cache.buf
      ensures Valid()
      ensures old(outstanding) > 1 ==>
        State() == End(old(State())) && cache.disk == old(cache.disk) && cache.Shown() == old(cache.Shown())
      ensures cache.writes == old(cache.writes) +
        if old(outstanding) == 1 && old(n) > 0
        then CommitWrites(old(cache.disk), old(cache.Shown()), start, size, old(Targets())) else []
      ensures old(outstanding) == 1 ==>
        && State() == Tx(0, false, []) && Quiet(cache.buf[..])
        && forall b :: 0 <= b < |cache.disk| && Home(start, size, b) ==>
             cache.disk[b] == old(cache.Shown())[b] == cache.Shown()[b]
    {
      hide Cache.Valid, Quiet, Views, DirtyBlocks, Elems, Distinct, Redo.Count, CommitWrites, Apply, Fits;
      outstanding := outstanding - 1;
      if outstanding == 0 {
        committing := true;
        Commit();
        committing := false;
      }
    }

    /** write_head: the in-memory header over the one in the header block, in one block write. */
    method WriteHead()
      requires Shape() && Quiet(cache.buf[..]) && start < |cache.disk|
      requires IsTargets(Targets())
      requires |cache.Pinned()| < NBUF && start !in cache.Pinned()
      modifies cache, cache.buf
      ensures Shape() && Quiet(cache.buf[..])
      ensures var h := PutHeader(old(cache.Shown())[start], Targets());
        && cache.disk == old(cache.disk)[start := h]
        && cache.writes == old(cache.writes) + [Write(start, h)]
        && cache.Shown() == old(cache.Shown())[start := h]
        && cache.Pinned() == old(cache.Pinned())
    {
      var b := BreadQuiet(cache, start);
      var h := PutWord(cache.buf[b].data, 0, n);
      ghost var h0 := h;
      var i := 0;
      while i < n
        invariant 0 <= i <= n
        invariant PutTargets(h, block[..n], i) == PutTargets(h0, block[..n], 0)
      {
        h := PutWord(h, i + 1, block[i]);
        i := i + 1;
      }
      StoreAndWrite(cache, b, b, h);
      Release(cache, b, b);
    }
  }

  /** Crash point k of a commit, as the block writes since power-on show it: cutting the history
      after the k-th write of commit() is a crash after k of its writes. */
  lemma CrashPoint(boot: Disk, before: seq<Write>, d: Disk, view: Disk, start: nat, size: nat, ts: seq<nat>, k: nat)
    requires |d| == |boot| == |view| && InRange(|boot|, before) && d == Apply(boot, before)
    requires Fits(|d|, start, size, ts) && k <= 2 * |ts| + 2
    ensures var history := before + CommitWrites(d, view, start, size, ts);
      && |before| + k <= |history|
      && InRange(|boot|, history[..|before| + k])
      && Apply(boot, history[..|before| + k]) == CrashDuringCommit(d, view, start, size, ts, k)
  {
    var ws := CommitWrites(d, view, start, size, ts);
    assert (before + ws)[..|before| + k] == before + ws[..k];
    ApplyConcat(boot, before, ws[..k]);
  }

  ghost function Upto(n: nat): (s: set<nat>)
    ensures |s| == n && forall i: nat :: i in s <==> i < n
  {
    if n == 0 then {} else Upto(n - 1) + {n - 1}
  }

  lemma {:induction false} ImageSize(f: seq<nat>, from: set<nat>, image: set<nat>)
    requires forall i :: i in from ==> i < |f|
    requires forall b :: b in image ==> exists i :: i in from && f[i] == b
    ensures |image| <= |from|
    decreases |from|
  {
    if image != {} {
      var b :| b in image;
      var i :| i in from && f[i] == b;
      ImageSize(f, from - {i}, image - {b});
    }
  }

  lemma DirtyWithout(bufs: seq<Buf>, k: nat)
    requires |bufs| == NBUF + 1 && k < NBUF && !bufs[k].dirty
    ensures |DirtyBlocks(bufs)| < NBUF
  {
    var f := seq(NBUF, i requires 0 <= i < NBUF => bufs[i].blockno);
    var others := Upto(NBUF) - {k};
    forall b | b in DirtyBlocks(bufs) ensures exists i :: i in others && f[i] == b {
      var i :| 0 <= i < NBUF && bufs[i].dirty && bufs[i].blockno == b;
      assert i in others && f[i] == b;
    }
    ImageSize(f, others, DirtyBlocks(bufs));
  }

  /** A log of 30 targets cannot be committed from a cache of 30 buffers: with nobody holding a
      buffer, every block pinned and the log block not cached, commit's first bread succeeds
      exactly when fewer than NBUF blocks are pinned. */
  lemma LogBlockAvailableIff(bufs: seq<Buf>, disk: Disk, logblk: nat)
    requires Consistent(bufs, disk) && Quiet(bufs)
    requires forall i :: 0 <= i < NBUF ==> !Names(bufs[i], 1, logblk)
    ensures Available(bufs, logblk) <==> |DirtyBlocks(bufs)| < NBUF
  {
    if |DirtyBlocks(bufs)| < NBUF {
      IdleExists(bufs, disk, {});
    } else if i :| 0 <= i < NBUF && Idle(bufs[i]) {
      DirtyWithout(bufs, i);
    }
  }
}
