/** The log and the file system together: after a crash anywhere inside commit() and any number of
    interrupted recoveries, the disk carries a whole file system again, either the one before the
    transaction or the one after it. */
module FsCrash {
  import opened Blocks
  import BufferCache
  import Logging
  import Redo
  import opened FsLayout
  import opened FsOwnership
  import opened FileSystem

  /** The file system t, with the owners of its blocks, is what the disk holds. */
  ghost predicate Holds(sb: Super, blocks: Disk, t: seq<Dinode>, owner: map<nat, Slot>) {
    Owned(sb, blocks, t, owner, {}) && AllSized(blocks, t) && Synced(sb, blocks, t, -1)
  }

  /** The same bytes in every file. */
  ghost predicate SameContents(b0: Disk, b1: Disk, t: seq<Dinode>)
    requires IsTable(t) && AllSized(b0, t)
  {
    forall i :: 0 <= i < |t| ==> Contents(b1, t[i]) == Contents(b0, t[i])
  }

  lemma Parts(sb: Super, b: Disk, t: seq<Dinode>, owner: map<nat, Slot>)
    requires Holds(sb, b, t, owner)
    ensures Owned(sb, b, t, owner, {}) && IsTable(t) && AllSized(b, t) && Synced(sb, b, t, -1)
    ensures Geometry(sb, b, t) && sb.inodestart <= sb.bmapstart < sb.datastart <= |b|
    ensures forall c :: c in owner ==> sb.datastart <= c < |b|
  {}

  lemma Whole(sb: Super, b: Disk, t: seq<Dinode>, owner: map<nat, Slot>)
    requires Owned(sb, b, t, owner, {}) && IsTable(t) && AllSized(b, t) && Synced(sb, b, t, -1)
    ensures Holds(sb, b, t, owner)
  {}

  lemma AgreeInodes(sb: Super, b0: Disk, b1: Disk, t: seq<Dinode>)
    requires Geometry(sb, b0, t) && Synced(sb, b0, t, -1) && |b1| == |b0|
    requires forall b: nat :: sb.inodestart <= b < |b0| ==> b1[b] == b0[b]
    ensures Synced(sb, b1, t, -1)
  {
    forall i | 0 <= i < |t| ensures InodeOnDisk(sb, b1, t, i) {
      InodeBlockRange(sb, b0, t, i);
      assert InodeOnDisk(sb, b0, t, i);
    }
  }

  lemma AgreeContents(b0: Disk, b1: Disk, t: seq<Dinode>)
    requires IsTable(t) && AllSized(b0, t) && SameFiles(b0, t, b1, t) && KeepsAddrs(b0, t, b1, t)
    ensures AllSized(b1, t) && SameContents(b0, b1, t)
  {}

  /** A file system depends only on the blocks from the first inode block on. */
  lemma AgreeFromInodes(sb: Super, b0: Disk, b1: Disk, t: seq<Dinode>, owner: map<nat, Slot>)
    requires Holds(sb, b0, t, owner) && |b1| == |b0|
    requires forall b: nat :: sb.inodestart <= b < |b0| ==> b1[b] == b0[b]
    ensures Holds(sb, b1, t, owner) && IsTable(t) && SameContents(b0, b1, t)
  {
    Parts(sb, b0, t, owner);
    hide *;
    SameOwned(sb, b0, t, owner, {}, b1);
    UnownedKeepsFiles(sb, b0, t, owner, {}, b1);
    AgreeContents(b0, b1, t);
    AgreeInodes(sb, b0, b1, t);
    Whole(sb, b1, t, owner);
  }

  /** The transaction's writes are in the cache (view) and its targets in the log; the disk still
      holds the file system of before. Whatever the crash point k and the interruptions ks, recovery
      ends with the old file system if the header write had not reached the disk, and with the new
      one if it had: never a mixture. */
  lemma CrashLeavesAFileSystem(sb: Super, start: nat, size: nat, ts: seq<nat>, k: nat, ks: seq<nat>,
                               d: Disk, t0: seq<Dinode>, o0: map<nat, Slot>,
                               view: Disk, t1: seq<Dinode>, o1: map<nat, Slot>)
    requires |d| == |view| && Redo.Fits(|d|, start, size, ts) && start + size <= sb.inodestart
    requires Redo.Count(d[start]) == 0 && k <= 2 * |ts| + 2
    requires forall b :: 0 <= b < |d| && b !in ts ==> view[b] == d[b]
    requires Holds(sb, d, t0, o0) && Holds(sb, view, t1, o1) && IsTable(t0) && IsTable(t1)
    ensures var c := Redo.CrashDuringCommit(d, view, start, size, ts, k);
      && Redo.WellFormed(c, start, size)
      && var r := Redo.Recovered(Redo.Crashes(c, start, size, ks), start, size);
      && Redo.Count(r[start]) == 0
      && if k > |ts| then Holds(sb, r, t1, o1) && SameContents(view, r, t1)
         else Holds(sb, r, t0, o0) && SameContents(d, r, t0)
  {
    Redo.CrashAtomicity(d, view, start, size, ts, k, ks);
    var c := Redo.CrashDuringCommit(d, view, start, size, ts, k);
    var r := Redo.Recovered(Redo.Crashes(c, start, size, ks), start, size);
    hide Holds, Redo.Recovered, Redo.Crashes, Redo.CrashDuringCommit, Redo.WellFormed, SameContents;
    if k > |ts| {
      AgreeFromInodes(sb, view, r, t1, o1);
    } else {
      AgreeFromInodes(sb, d, r, t0, o0);
    }
  }

  /** The machine stopped with the first cut of these block writes done since power-on; recovery,
      after any number of attempts cut short, finds the file system t on the disk, with the bytes
      its files have in b. */
  ghost predicate Survives(sb: Super, boot: Disk, writes: seq<Redo.Write>, cut: nat, start: nat, size: nat,
                           ks: seq<nat>, b: Disk, t: seq<Dinode>, owner: map<nat, Slot>) {
    && cut <= |writes| && Redo.InRange(|boot|, writes[..cut])
    && var c := Redo.Apply(boot, writes[..cut]);
    && Redo.WellFormed(c, start, size)
    && var r := Redo.Recovered(Redo.Crashes(c, start, size, ks), start, size);
    && Redo.Count(r[start]) == 0
    && Holds(sb, r, t, owner) && IsTable(t) && AllSized(b, t) && SameContents(b, r, t)
  }

  lemma SurvivesFrom(sb: Super, boot: Disk, writes: seq<Redo.Write>, cut: nat, start: nat, size: nat, ks: seq<nat>,
                     b: Disk, t: seq<Dinode>, owner: map<nat, Slot>, c: Disk)
    requires cut <= |writes| && Redo.InRange(|boot|, writes[..cut]) && Redo.Apply(boot, writes[..cut]) == c
    requires Redo.WellFormed(c, start, size) && IsTable(t) && AllSized(b, t)
    requires var r := Redo.Recovered(Redo.Crashes(c, start, size, ks), start, size);
      start < |r| && Redo.Count(r[start]) == 0 && Holds(sb, r, t, owner) && SameContents(b, r, t)
    ensures Survives(sb, boot, writes, cut, start, size, ks, b, t, owner)
  {
    hide Holds, SameContents, Redo.Recovered, Redo.Crashes, Redo.Apply;
  }

  /** The old file system or the new one, at every point of the write history up to the end of the
      commit. */
  lemma CutLeavesAFileSystem(sb: Super, start: nat, size: nat, ts: seq<nat>, cut: nat, ks: seq<nat>,
                             boot: Disk, before: seq<Redo.Write>, d: Disk, t0: seq<Dinode>, o0: map<nat, Slot>,
                             view: Disk, t1: seq<Dinode>, o1: map<nat, Slot>)
    requires |d| == |view| && Redo.Fits(|d|, start, size, ts) && start + size <= sb.inodestart
    requires Redo.Count(d[start]) == 0 && forall b :: 0 <= b < |d| && b !in ts ==> view[b] == d[b]
    requires Redo.InRange(|boot|, before) && d == Redo.Apply(boot, before)
    requires Holds(sb, d, t0, o0) && Holds(sb, view, t1, o1)
    requires |before| <= cut <= |before| + if ts == [] then 0 else 2 * |ts| + 2
    ensures var history := before + if ts == [] then [] else Redo.CommitWrites(d, view, start, size, ts);
      if cut > |before| + |ts| then Survives(sb, boot, history, cut, start, size, ks, view, t1, o1)
      else Survives(sb, boot, history, cut, start, size, ks, d, t0, o0)
  {
    hide *;
    var k := cut - |before|;
    var history := before + if ts == [] then [] else Redo.CommitWrites(d, view, start, size, ts);
    Logging.CrashPoint(boot, before, d, view, start, size, ts, k);
    assert history[..cut] == (before + Redo.CommitWrites(d, view, start, size, ts))[..cut];
    Parts(sb, d, t0, o0);
    Parts(sb, view, t1, o1);
    CrashLeavesAFileSystem(sb, start, size, ts, k, ks, d, t0, o0, view, t1, o1);
    var c := Redo.CrashDuringCommit(d, view, start, size, ts, k);
    if k > |ts| {
      SurvivesFrom(sb, boot, history, cut, start, size, ks, view, t1, o1, c);
    } else {
      SurvivesFrom(sb, boot, history, cut, start, size, ks, d, t0, o0, c);
    }
  }

  /** end_op of the operation that changed the file system from t0, on the disk, to t1, as bread
      shows it: stop the machine after any of the block writes and recovery finds t0 or t1 whole,
      t1 exactly if the header write was done; without a crash the disk holds t1. */
  method EndLastOp(log: Logging.Log, sb: Super, ghost t0: seq<Dinode>, ghost o0: map<nat, Slot>,
                   ghost t1: seq<Dinode>, ghost o1: map<nat, Slot>)
    requires log.Valid() && log.outstanding == 1 && !log.committing
    requires BufferCache.Quiet(log.cache.buf[..]) && log.n < BufferCache.NBUF
    requires log.start + log.size <= sb.inodestart
    requires Holds(sb, log.cache.disk, t0, o0) && Holds(sb, log.cache.Shown(), t1, o1)
    modifies log`outstanding, log`committing, log`n, log.cache, log.cache.buf
    ensures log.Valid() && Holds(sb, log.cache.disk, t1, o1)
    ensures old(log.cache.writes) <= log.cache.writes
    ensures forall cut: nat, ks: seq<nat> :: |old(log.cache.writes)| <= cut <= |log.cache.writes| ==>
      if cut > |old(log.cache.writes)| + old(log.n)
      then Survives(sb, log.cache.boot, log.cache.writes, cut, log.start, log.size, ks, old(log.cache.Shown()), t1, o1)
      else Survives(sb, log.cache.boot, log.cache.writes, cut, log.start, log.size, ks, old(log.cache.disk), t0, o0)
  {
    ghost var boot, before, d, view := log.cache.boot, log.cache.writes, log.cache.disk, log.cache.Shown();
    ghost var ts := log.Targets();
    Logging.ShownIsDisk(log.cache);
    log.EndOp();
    forall cut: nat, ks: seq<nat> | |before| <= cut <= |log.cache.writes|
      ensures if cut > |before| + |ts| then Survives(sb, boot, log.cache.writes, cut, log.start, log.size, ks, view, t1,
        o1)
              else Survives(sb, boot, log.cache.writes, cut, log.start, log.size, ks, d, t0, o0)
    {
      CutLeavesAFileSystem(sb, log.start, log.size, ts, cut, ks, boot, before, d, t0, o0, view, t1, o1);
    }
    AgreeFromInodes(sb, view, log.cache.disk, t1, o1);
  }
}
