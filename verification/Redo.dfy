/** The redo log as a sequence of atomic block writes: what commit() and
    recover_from_log() put on the disk, and what a crash between any two of
    those writes leaves behind. */
module Redo {
  import opened Blocks
  import opened Words

  const MAXOPBLOCKS: nat := 10
  const LOGSIZE: nat := 3 * MAXOPBLOCKS

  datatype Write = Write(bno: nat, data: Block)

  predicate InRange(n: nat, ws: seq<Write>) { forall i :: 0 <= i < |ws| ==> ws[i].bno < n }

  /** The disk after some completed block writes. */
  function Apply(d: Disk, ws: seq<Write>): (r: Disk)
    requires InRange(|d|, ws)
    ensures |r| == |d|
    decreases |ws|
  {
    if ws == [] then d else Apply(d[ws[0].bno := ws[0].data], ws[1..])
  }

  // ---------------------------------------------------------------- header

  /** lh->n of a header block; the disk format has it in word 0. */
  function Count(h: Block): (n: U32) { Word(h, 0) }

  /** lh->block[0..n-1], in words 1..n. */
  function Targets(h: Block): (ts: seq<nat>)
    requires Count(h) <= LOGSIZE
    ensures |ts| == Count(h)
  {
    seq(Count(h), i requires 0 <= i < Count(h) => Word(h, i + 1))
  }

  predicate IsTargets(ts: seq<nat>) { |ts| <= LOGSIZE && forall i :: 0 <= i < |ts| ==> ts[i] < TWO32 }

  /** write_head's copy loop: words i+1.. of the header block. */
  function PutTargets(h: Block, ts: seq<nat>, i: nat): (r: Block)
    requires IsTargets(ts) && i <= |ts|
    decreases |ts| - i
  {
    if i == |ts| then h else PutTargets(PutWord(h, i + 1, ts[i]), ts, i + 1)
  }

  /** The header block write_head writes over the old header block h. */
  function PutHeader(h: Block, ts: seq<nat>): (r: Block)
    requires IsTargets(ts)
  {
    PutTargets(PutWord(h, 0, |ts|), ts, 0)
  }

  lemma {:induction false} PutTargetsWord(h: Block, ts: seq<nat>, i: nat, j: nat)
    requires IsTargets(ts) && i <= |ts| && j < WORDS
    ensures Word(PutTargets(h, ts, i), j) == if i < j <= |ts| then ts[j - 1] else Word(h, j)
    decreases |ts| - i
  {
    if i < |ts| {
      PutTargetsWord(PutWord(h, i + 1, ts[i]), ts, i + 1, j);
      WordOfPutWord(h, i + 1, ts[i], j);
    }
  }

  /** read_head gets back exactly what write_head wrote, whatever the block held before. */
  lemma HeaderRoundTrip(h: Block, ts: seq<nat>)
    requires IsTargets(ts)
    ensures Count(PutHeader(h, ts)) == |ts| && Targets(PutHeader(h, ts)) == ts
  {
    var h0 := PutWord(h, 0, |ts|);
    PutTargetsWord(h0, ts, 0, 0);
    WordOfPutWord(h, 0, |ts|, 0);
    forall i | 0 <= i < |ts| ensures Word(PutHeader(h, ts), i + 1) == ts[i] {
      PutTargetsWord(h0, ts, 0, i + 1);
    }
  }

  // ------------------------------------------------------- the write sequences

  /** write_log: the modified blocks, as the cache shows them, go to the log area. */
  function LogWrites(view: Disk, start: nat, ts: seq<nat>): (ws: seq<Write>)
    requires forall i :: 0 <= i < |ts| ==> ts[i] < |view|
    ensures |ws| == |ts|
  {
    seq(|ts|, i requires 0 <= i < |ts| => Write(start + 1 + i, view[ts[i]]))
  }

  /** install_trans: block i of the log area goes to home block ts[i]. */
  function InstallWrites(d: Disk, start: nat, ts: seq<nat>): (ws: seq<Write>)
    requires start + |ts| < |d|
    ensures |ws| == |ts|
  {
    seq(|ts|, i requires 0 <= i < |ts| => Write(ts[i], d[start + 1 + i]))
  }

  predicate Home(start: nat, size: nat, b: nat) { b < start || start + size <= b }

  /** The log occupies blocks start..start+size-1; ts is a list of home blocks that fits in it. */
  predicate Fits(nblocks: nat, start: nat, size: nat, ts: seq<nat>) {
    && start + size <= nblocks <= TWO32
    && 1 <= size
    && |ts| <= LOGSIZE && |ts| <= size - 1
    && forall i :: 0 <= i < |ts| ==> ts[i] < nblocks && Home(start, size, ts[i])
  }

  /** A disk whose header names home blocks that fit in the log area. */
  predicate WellFormed(d: Disk, start: nat, size: nat) {
    && start < |d|
    && Count(d[start]) <= LOGSIZE
    && Fits(|d|, start, size, Targets(d[start]))
  }

  /** recover_from_log: install what the header names, then clear the header. */
  function RecoverWrites(d: Disk, start: nat, size: nat): (ws: seq<Write>)
    requires WellFormed(d, start, size)
    ensures |ws| == Count(d[start]) + 1
    ensures InRange(|d|, ws)
  {
    InstallWrites(d, start, Targets(d[start])) + [Write(start, PutHeader(d[start], []))]
  }

  /** commit() with lh.n > 0: log area, header, home blocks, cleared header. */
  function CommitWrites(d: Disk, view: Disk, start: nat, size: nat, ts: seq<nat>): (ws: seq<Write>)
    requires |d| == |view| && Fits(|d|, start, size, ts)
    ensures |ws| == 2 * |ts| + 2
    ensures InRange(|d|, ws)
  {
    var h := PutHeader(d[start], ts);
    LogWrites(view, start, ts) + [Write(start, h)]
    + seq(|ts|, i requires 0 <= i < |ts| => Write(ts[i], view[ts[i]]))
    + [Write(start, PutHeader(h, []))]
  }

  // ------------------------------------------------------------ Apply, pointwise

  lemma {:induction false} ApplyConcat(d: Disk, a: seq<Write>, b: seq<Write>)
    requires InRange(|d|, a) && InRange(|d|, b)
    ensures InRange(|d|, a + b)
    ensures Apply(d, a + b) == Apply(Apply(d, a), b)
    decreases |a|
  {
    if a == [] {
      assert a + b == b;
    } else {
      assert (a + b)[1..] == a[1..] + b;
      ApplyConcat(d[a[0].bno := a[0].data], a[1..], b);
    }
  }

  /** A block no write names keeps its contents. */
  lemma {:induction false} ApplyMiss(d: Disk, ws: seq<Write>, b: nat)
    requires InRange(|d|, ws) && b < |d|
    requires forall i :: 0 <= i < |ws| ==> ws[i].bno != b
    ensures Apply(d, ws)[b] == d[b]
    decreases |ws|
  {
    if ws != [] {
      ApplyMiss(d[ws[0].bno := ws[0].data], ws[1..], b);
    }
  }

  /** A block that is only ever written with c ends up holding c. */
  lemma {:induction false} ApplyHit(d: Disk, ws: seq<Write>, b: nat, k: nat)
    requires InRange(|d|, ws) && b < |d|
    requires k < |ws| && ws[k].bno == b
    requires forall i :: 0 <= i < |ws| && ws[i].bno == b ==> ws[i].data == ws[k].data
    ensures Apply(d, ws)[b] == ws[k].data
    decreases |ws|
  {
    var d' := d[ws[0].bno := ws[0].data];
    if j :| 1 <= j < |ws| && ws[j].bno == b {
      ApplyHit(d', ws[1..], b, j - 1);
    } else {
      assert k == 0;
      ApplyMiss(d', ws[1..], b);
    }
  }

  lemma ApplyLast(d: Disk, ws: seq<Write>, w: Write)
    requires InRange(|d|, ws) && w.bno < |d|
    ensures InRange(|d|, ws + [w])
    ensures Apply(d, ws + [w]) == Apply(d, ws)[w.bno := w.data]
  {
    ApplyConcat(d, ws, [w]);
    assert [w][1..] == [];
  }

  /** The last write to a block decides what it holds. */
  lemma {:induction false} ApplyDecides(d: Disk, ws: seq<Write>, i: nat)
    requires InRange(|d|, ws) && i < |ws|
    requires forall j :: i < j < |ws| ==> ws[j].bno != ws[i].bno
    ensures Apply(d, ws)[ws[i].bno] == ws[i].data
    decreases i
  {
    var e, back := d[ws[0].bno := ws[0].data], ws[1..];
    assert Apply(d, ws) == Apply(e, back);
    assert InRange(|e|, back) && forall j :: 0 <= j < |back| ==> back[j] == ws[j + 1];
    hide Apply, InRange;
    if i == 0 { ApplyMiss(e, back, ws[0].bno); } else { ApplyDecides(e, back, i - 1); }
  }

  lemma ApplyNothing(d: Disk)
    ensures InRange(|d|, []) && Apply(d, []) == d
  {}

  /** What one complete recovery makes of a disk. */
  function Recovered(d: Disk, start: nat, size: nat): (r: Disk)
    requires WellFormed(d, start, size)
    ensures |r| == |d|
  {
    Apply(d, RecoverWrites(d, start, size))
  }

  /** Recovery leaves the header empty. */
  lemma RecoveredHeader(d: Disk, start: nat, size: nat)
    requires WellFormed(d, start, size)
    ensures Recovered(d, start, size)[start] == PutHeader(d[start], [])
  {
    ApplyLast(d, InstallWrites(d, start, Targets(d[start])), Write(start, PutHeader(d[start], [])));
  }

  /** Recovery leaves a block the header does not name as it was. */
  lemma RecoveredOther(d: Disk, start: nat, size: nat, b: nat)
    requires WellFormed(d, start, size) && b < |d|
    requires b != start && b !in Targets(d[start])
    ensures Recovered(d, start, size)[b] == d[b]
  {
    var ts := Targets(d[start]);
    var ws := RecoverWrites(d, start, size);
    forall i | 0 <= i < |ws| ensures ws[i].bno != b {
      if i < |ts| { assert ts[i] in ts; }
    }
    ApplyMiss(d, ws, b);
  }

  /** Recovery gives a named home block the contents logged for its last mention. */
  lemma RecoveredTarget(d: Disk, start: nat, size: nat, i: nat)
    requires WellFormed(d, start, size) && i < Count(d[start])
    requires forall j :: i < j < Count(d[start]) ==> Targets(d[start])[j] != Targets(d[start])[i]
    ensures Recovered(d, start, size)[Targets(d[start])[i]] == d[start + 1 + i]
  {
    ApplyDecides(d, RecoverWrites(d, start, size), i);
  }

  /** The disk after a recovery that crashed once k of its block writes were done. */
  function Interrupted(d: Disk, start: nat, size: nat, k: nat): (r: Disk)
    requires WellFormed(d, start, size)
    ensures |r| == |d|
  {
    var ws := RecoverWrites(d, start, size);
    Apply(d, if k < |ws| then ws[..k] else ws)
  }

  lemma PutHeaderTwice(h: Block)
    ensures PutHeader(PutHeader(h, []), []) == PutHeader(h, [])
  {}

  lemma {:induction false} LastIndex(ts: seq<nat>, b: nat) returns (i: nat)
    requires b in ts
    ensures i < |ts| && ts[i] == b && forall j :: i < j < |ts| ==> ts[j] != b
  {
    i := |ts| - 1;
    while ts[i] != b
      invariant i < |ts| && b in ts[..i + 1]
      invariant forall j :: i < j < |ts| ==> ts[j] != b
      decreases i
    {
      i := i - 1;
    }
  }

  /** A crash inside recovery leaves a log from which recovery arrives at the same disk. */
  lemma InterruptedKeepsLog(d: Disk, start: nat, size: nat, k: nat)
    requires WellFormed(d, start, size)
    ensures WellFormed(Interrupted(d, start, size, k), start, size)
    ensures Recovered(Interrupted(d, start, size, k), start, size) == Recovered(d, start, size)
  {
    var ts := Targets(d[start]);
    var ws := RecoverWrites(d, start, size);
    var ins := InstallWrites(d, start, ts);
    var c := Interrupted(d, start, size, k);
    if k < |ws| {
      assert ws[..k] == ins[..k];
      forall b | 0 <= b < |d| && !Home(start, size, b) ensures c[b] == d[b] {
        ApplyMiss(d, ins[..k], b);
      }
      forall b | 0 <= b < |d| ensures Recovered(c, start, size)[b] == Recovered(d, start, size)[b] {
        if b == start {
          RecoveredHeader(d, start, size);
          RecoveredHeader(c, start, size);
        } else if b in ts {
          var i := LastIndex(ts, b);
          RecoveredTarget(d, start, size, i);
          RecoveredTarget(c, start, size, i);
        } else {
          RecoveredOther(d, start, size, b);
          RecoveredOther(c, start, size, b);
          ApplyMiss(d, ins[..k], b);
        }
      }
    } else {
      RecoveredHeader(d, start, size);
      HeaderRoundTrip(d[start], []);
      forall b | 0 <= b < |d| ensures Recovered(c, start, size)[b] == c[b] {
        if b == start {
          RecoveredHeader(c, start, size);
          PutHeaderTwice(d[start]);
        } else {
          RecoveredOther(c, start, size, b);
        }
      }
    }
  }

  /** Any number of recoveries, each cut short after its own number of writes. */
  function Crashes(d: Disk, start: nat, size: nat, ks: seq<nat>): (r: Disk)
    requires WellFormed(d, start, size)
    ensures |r| == |d|
    ensures WellFormed(r, start, size)
    decreases |ks|
  {
    if ks == [] then d
    else
      InterruptedKeepsLog(d, start, size, ks[0]);
      Crashes(Interrupted(d, start, size, ks[0]), start, size, ks[1..])
  }

  /** Recovery may itself be interrupted any number of times: the final disk is the one an
      uninterrupted recovery would have produced. */
  lemma {:induction false} RecoveryIsIdempotent(d: Disk, start: nat, size: nat, ks: seq<nat>)
    requires WellFormed(d, start, size)
    ensures Recovered(Crashes(d, start, size, ks), start, size) == Recovered(d, start, size)
    decreases |ks|
  {
    if ks != [] {
      InterruptedKeepsLog(d, start, size, ks[0]);
      RecoveryIsIdempotent(Interrupted(d, start, size, ks[0]), start, size, ks[1..]);
    }
  }

  // ---------------------------------------------------------- crash atomicity

  /** The disk when the machine stops after k of commit()'s block writes. */
  function CrashDuringCommit(d: Disk, view: Disk, start: nat, size: nat, ts: seq<nat>, k: nat): (r: Disk)
    requires |d| == |view| && Fits(|d|, start, size, ts) && k <= 2 * |ts| + 2
    ensures |r| == |d|
  {
    Apply(d, CommitWrites(d, view, start, size, ts)[..k])
  }

  /** Until the header write has reached the disk, the header and every home block are untouched. */
  lemma BeforeHeader(d: Disk, view: Disk, start: nat, size: nat, ts: seq<nat>, k: nat, b: nat)
    requires |d| == |view| && Fits(|d|, start, size, ts) && k <= |ts| && b < |d|
    requires b == start || Home(start, size, b)
    ensures CrashDuringCommit(d, view, start, size, ts, k)[b] == d[b]
  {
    ApplyMiss(d, CommitWrites(d, view, start, size, ts)[..k], b);
  }

  /** Once it has, a home block is either installed already or its new contents are in the log. */
  lemma AfterHeader(d: Disk, view: Disk, start: nat, size: nat, ts: seq<nat>, k: nat)
    requires |d| == |view| && Fits(|d|, start, size, ts) && |ts| < k <= 2 * |ts| + 1
    ensures var c := CrashDuringCommit(d, view, start, size, ts, k);
            && c[start] == PutHeader(d[start], ts)
            && (forall i :: 0 <= i < |ts| ==> c[start + 1 + i] == view[ts[i]])
            && (forall b :: 0 <= b < |d| && Home(start, size, b) && b !in ts ==> c[b] == d[b])
  {
    var n := |ts|;
    var ws := CommitWrites(d, view, start, size, ts)[..k];
    ApplyHit(d, ws, start, n);
    forall i | 0 <= i < n ensures Apply(d, ws)[start + 1 + i] == view[ts[i]] {
      ApplyHit(d, ws, start + 1 + i, i);
    }
    forall b | 0 <= b < |d| && Home(start, size, b) && b !in ts ensures Apply(d, ws)[b] == d[b] {
      forall i | 0 <= i < |ws| ensures ws[i].bno != b {
        if n < i <= 2 * n { assert ts[i - n - 1] in ts; }
      }
      ApplyMiss(d, ws, b);
    }
  }

  /** After the last write the header is empty and every target holds its new contents. */
  lemma AfterClear(d: Disk, view: Disk, start: nat, size: nat, ts: seq<nat>)
    requires |d| == |view| && Fits(|d|, start, size, ts)
    ensures var c := CrashDuringCommit(d, view, start, size, ts, 2 * |ts| + 2);
            && c[start] == PutHeader(PutHeader(d[start], ts), [])
            && (forall b :: 0 <= b < |d| && Home(start, size, b) ==> c[b] == if b in ts then view[b] else d[b])
  {
    var n := |ts|;
    var ws := CommitWrites(d, view, start, size, ts);
    assert ws[..2 * n + 2] == ws == ws[..2 * n + 1] + [ws[2 * n + 1]];
    ApplyLast(d, ws[..2 * n + 1], ws[2 * n + 1]);
    AfterHeader(d, view, start, size, ts, 2 * n + 1);
    forall b | 0 <= b < |d| && b in ts ensures Apply(d, ws[..2 * n + 1])[b] == view[b] {
      var i :| 0 <= i < n && ts[i] == b;
      ApplyHit(d, ws[..2 * n + 1], b, n + 1 + i);
    }
  }

  /** Where a crash after k writes of commit() leaves the log: as it was, full, or empty again. */
  lemma CrashKeepsLog(d: Disk, view: Disk, start: nat, size: nat, ts: seq<nat>, k: nat)
    requires |d| == |view| && Fits(|d|, start, size, ts)
    requires Count(d[start]) == 0
    requires k <= 2 * |ts| + 2
    ensures var c := CrashDuringCommit(d, view, start, size, ts, k);
            && WellFormed(c, start, size)
            && Targets(c[start]) == if |ts| < k <= 2 * |ts| + 1 then ts else []
  {
    HeaderRoundTrip(d[start], ts);
    HeaderRoundTrip(PutHeader(d[start], ts), []);
    if k <= |ts| {
      BeforeHeader(d, view, start, size, ts, k, start);
    } else if k <= 2 * |ts| + 1 {
      AfterHeader(d, view, start, size, ts, k);
    } else {
      AfterClear(d, view, start, size, ts);
    }
  }

  /** One complete recovery after the crash gives all old or all new home blocks. */
  lemma CrashThenRecovery(d: Disk, view: Disk, start: nat, size: nat, ts: seq<nat>, k: nat, b: nat)
    requires |d| == |view| && Fits(|d|, start, size, ts)
    requires Count(d[start]) == 0
    requires k <= 2 * |ts| + 2
    requires b < |d| && Home(start, size, b)
    ensures WellFormed(CrashDuringCommit(d, view, start, size, ts, k), start, size)
    ensures Recovered(CrashDuringCommit(d, view, start, size, ts, k), start, size)[b]
         == if k > |ts| && b in ts then view[b] else d[b]
  {
    var c := CrashDuringCommit(d, view, start, size, ts, k);
    CrashKeepsLog(d, view, start, size, ts, k);
    if k <= |ts| {
      BeforeHeader(d, view, start, size, ts, k, b);
      RecoveredOther(c, start, size, b);
    } else if k <= 2 * |ts| + 1 {
      AfterHeader(d, view, start, size, ts, k);
      if b in ts {
        var i := LastIndex(ts, b);
        RecoveredTarget(c, start, size, i);
      } else {
        RecoveredOther(c, start, size, b);
      }
    } else {
      AfterClear(d, view, start, size, ts);
      RecoveredOther(c, start, size, b);
    }
  }

  /** Crash atomicity. The log starts empty and commit() is about to write the targets ts. A crash
      after any k block writes, then any number of interrupted recoveries, then a complete one,
      leaves every home block new if the header write (write number |ts|) was among the k, and
      every home block old if it was not; and it leaves the log empty again. */
  lemma CrashAtomicity(d: Disk, view: Disk, start: nat, size: nat, ts: seq<nat>, k: nat, ks: seq<nat>)
    requires |d| == |view| && Fits(|d|, start, size, ts)
    requires Count(d[start]) == 0
    requires k <= 2 * |ts| + 2
    ensures var c := CrashDuringCommit(d, view, start, size, ts, k);
            && WellFormed(c, start, size)
            && var r := Recovered(Crashes(c, start, size, ks), start, size);
            && Count(r[start]) == 0
            && forall b :: 0 <= b < |d| && Home(start, size, b) ==>
                 r[b] == if k > |ts| && b in ts then view[b] else d[b]
  {
    var c := CrashDuringCommit(d, view, start, size, ts, k);
    CrashKeepsLog(d, view, start, size, ts, k);
    RecoveryIsIdempotent(c, start, size, ks);
    RecoveredHeader(c, start, size);
    HeaderRoundTrip(c[start], []);
    forall b | 0 <= b < |d| && Home(start, size, b)
      ensures Recovered(c, start, size)[b] == if k > |ts| && b in ts then view[b] else d[b]
    {
      CrashThenRecovery(d, view, start, size, ts, k, b);
    }
  }
}
