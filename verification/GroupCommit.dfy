/** Log admission and group commit: the counters of struct log that begin_op, log_write and end_op
    change under log.lock and log_write tests without it, and any number of processes taking those
    steps in any order. */
module GroupCommit {
  import opened Wrappers
  import opened Redo

  /** log.outstanding, log.committing and log.lh.block[0..lh.n-1]. */
  datatype Tx = Tx(outstanding: int, committing: bool, targets: seq<nat>)

  /** begin_op goes ahead; otherwise it sleeps and looks again. */
  predicate Admits(t: Tx) {
    !t.committing && |t.targets| + (t.outstanding + 1) * MAXOPBLOCKS <= LOGSIZE
  }

  function Begin(t: Tx): (r: Tx) { t.(outstanding := t.outstanding + 1) }

  /** log_write's panic tests come before absorption, so they do not look at the block. */
  predicate Room(t: Tx, size: nat) {
    |t.targets| < LOGSIZE && |t.targets| < size - 1 && t.outstanding >= 1
  }

  /** Log absorption: a block already in the log keeps its slot. */
  function Absorb(ts: seq<nat>, b: nat): (r: seq<nat>) { if b in ts then ts else ts + [b] }

  function Record(t: Tx, b: nat): (r: Tx) { t.(targets := Absorb(t.targets, b)) }

  /** end_op's critical section: the last operation out takes on the commit. */
  function End(t: Tx): (r: Tx) {
    t.(outstanding := t.outstanding - 1, committing := t.committing || t.outstanding == 1)
  }

  ghost predicate Distinct(ts: seq<nat>) { forall i, j :: 0 <= i < j < |ts| ==> ts[i] != ts[j] }

  ghost function Elems(ts: seq<nat>): (s: set<nat>) { set i | 0 <= i < |ts| :: ts[i] }

  // --------------------------------------------------- any number of processes

  type Budget = n: nat | n <= MAXOPBLOCKS

  /** log.size, and the most new blocks one operation logs: MAXOPBLOCKS by the design. */
  datatype Limits = Limits(size: nat, quota: Budget)

  /** InOp: the new blocks logged so far, and the block of a log_write that is past the panic tests
      but has not taken log.lock yet. Committing: between end_op's two critical sections, with
      commit() still to run. Committed: commit() has returned. */
  datatype Proc = Outside | InOp(logged: nat, passed: Option<nat>) | Committing | Committed

  datatype Sys = Sys(tx: Tx, procs: seq<Proc>)

  /** log_write is two steps, as its tests run without log.lock. */
  datatype Action =
    | BeginOp(p: nat)
    | PassTests(p: nat, b: nat)
    | LogWrite(p: nat, b: nat)
    | EndOp(p: nat)
    | Commit(p: nat)
    | Finish(p: nat)

  /** A block already in the log costs an operation nothing. */
  predicate Affords(t: Tx, logged: nat, b: nat, c: Limits) { b in t.targets || logged < c.quota }

  /** The process may call log_write on the block. */
  predicate MayWrite(s: Sys, p: nat, b: nat, c: Limits) {
    p < |s.procs| && s.procs[p].InOp? && s.procs[p].passed.None? && Affords(s.tx, s.procs[p].logged, b, c)
  }

  /** The process may take the step now. */
  predicate Enabled(s: Sys, a: Action, c: Limits) {
    && a.p < |s.procs|
    && match a
       case BeginOp(p) => s.procs[p].Outside? && Admits(s.tx)
       case PassTests(p, b) => MayWrite(s, p, b, c) && Room(s.tx, c.size)
       case LogWrite(p, b) => s.procs[p].InOp? && s.procs[p].passed == Some(b)
       case EndOp(p) => s.procs[p].InOp? && s.procs[p].passed.None? && !s.tx.committing
       case Commit(p) => s.procs[p].Committing?
       case Finish(p) => s.procs[p].Committed?
  }

  function Do(s: Sys, a: Action, c: Limits): (r: Sys)
    requires Enabled(s, a, c)
  {
    match a
    case BeginOp(p) => s.(tx := Begin(s.tx), procs := s.procs[p := InOp(0, None)])
    case PassTests(p, b) => s.(procs := s.procs[p := InOp(s.procs[p].logged, Some(b))])
    case LogWrite(p, b) =>
      var logged := s.procs[p].logged + if b in s.tx.targets then 0 else 1;
      s.(tx := Record(s.tx, b), procs := s.procs[p := InOp(logged, None)])
    case EndOp(p) =>
      s.(tx := End(s.tx), procs := s.procs[p := if s.tx.outstanding == 1 then Committing else Outside])
    case Commit(p) => s.(tx := s.tx.(targets := []), procs := s.procs[p := Committed])
    case Finish(p) => s.(tx := s.tx.(committing := false), procs := s.procs[p := Outside])
  }

  predicate IsRun(s: Sys, acts: seq<Action>, c: Limits)
    decreases |acts|
  {
    acts == [] || (Enabled(s, acts[0], c) && IsRun(Do(s, acts[0], c), acts[1..], c))
  }

  function Run(s: Sys, acts: seq<Action>, c: Limits): (r: Sys)
    requires IsRun(s, acts, c)
    decreases |acts|
  {
    if acts == [] then s else Run(Do(s, acts[0], c), acts[1..], c)
  }

  function Boot(nproc: nat): (s: Sys)
    ensures |s.procs| == nproc
  {
    Sys(Tx(0, false, []), seq(nproc, i => Outside))
  }

  // -------------------------------------------------------------- the invariant

  function Active(ps: seq<Proc>): (n: nat)
  {
    if ps == [] then 0 else (if ps[0].InOp? then 1 else 0) + Active(ps[1..])
  }

  /** What an operation that may log m new blocks still has to claim. */
  function Claim(p: Proc, m: nat): (n: int) { if p.InOp? then m - p.logged else 0 }

  /** Log slots that the operations in progress may still claim at m new blocks each. */
  function Unused(ps: seq<Proc>, m: nat): (n: int)
  {
    if ps == [] then 0 else Claim(ps[0], m) + Unused(ps[1..], m)
  }

  lemma {:induction false} ActiveAfter(ps: seq<Proc>, p: nat, q: Proc)
    requires p < |ps|
    ensures Active(ps[p := q]) == Active(ps) - (if ps[p].InOp? then 1 else 0) + (if q.InOp? then 1 else 0)
  {
    if p == 0 {
      assert ps[0 := q][1..] == ps[1..];
    } else {
      ActiveAfter(ps[1..], p - 1, q);
      assert ps[p := q][1..] == ps[1..][p - 1 := q];
    }
  }

  lemma {:induction false} UnusedAfter(ps: seq<Proc>, p: nat, q: Proc, m: nat)
    requires p < |ps|
    ensures Unused(ps[p := q], m) == Unused(ps, m) - Claim(ps[p], m) + Claim(q, m)
  {
    if p == 0 {
      assert ps[0 := q][1..] == ps[1..];
    } else {
      UnusedAfter(ps[1..], p - 1, q, m);
      assert ps[p := q][1..] == ps[1..][p - 1 := q];
    }
  }

  ghost predicate LoggedWithin(ps: seq<Proc>, m: nat) {
    forall i :: 0 <= i < |ps| && ps[i].InOp? ==> ps[i].logged <= m
  }

  lemma {:induction false} NoneActiveIff(ps: seq<Proc>)
    ensures Active(ps) == 0 <==> forall i :: 0 <= i < |ps| ==> !ps[i].InOp?
  {
    if ps != [] {
      NoneActiveIff(ps[1..]);
      assert forall i :: 0 <= i < |ps| - 1 ==> ps[1..][i] == ps[i + 1];
      assert forall i :: 1 <= i < |ps| ==> ps[i] == ps[1..][i - 1];
    }
  }

  lemma {:induction false} UnusedBounds(ps: seq<Proc>, m: nat)
    requires LoggedWithin(ps, m)
    ensures 0 <= Unused(ps, m) <= Active(ps) * m
  {
    if ps != [] {
      assert forall i :: 0 <= i < |ps| - 1 ==> ps[1..][i] == ps[i + 1];
      UnusedBounds(ps[1..], m);
      assert Active(ps) * m == Active(ps[1..]) * m + if ps[0].InOp? then m else 0;
    }
  }

  lemma {:induction false} ClaimIsUnused(ps: seq<Proc>, p: nat, m: nat)
    requires p < |ps| && LoggedWithin(ps, m)
    ensures Claim(ps[p], m) <= Unused(ps, m)
  {
    UnusedAfter(ps, p, Outside, m);
    UnusedBounds(ps[p := Outside], m);
  }

  predicate Busy(p: Proc) { p.Committing? || p.Committed? }

  /** The most blocks the log can ever list: begin_op reserves MAXOPBLOCKS for a lone operation's
      predecessors and the two operations it admits beside them log quota each. */
  function Peak(quota: nat): (n: nat) { if quota == 0 then 0 else MAXOPBLOCKS + 2 * quota }

  ghost predicate Counted(s: Sys, c: Limits) {
    && s.tx.outstanding == Active(s.procs)
    && LoggedWithin(s.procs, c.quota)
    && |s.tx.targets| + Unused(s.procs, MAXOPBLOCKS) <= LOGSIZE
    && |s.tx.targets| + Unused(s.procs, c.quota) <= Peak(c.quota)
    && (s.tx.outstanding == 0 && !s.tx.committing ==> s.tx.targets == [])
  }

  ghost predicate Listed(s: Sys, c: Limits) {
    && Distinct(s.tx.targets)
    && (s.tx.targets != [] ==> c.size >= 2)
    && forall i :: 0 <= i < |s.procs| && s.procs[i].InOp? && s.procs[i].passed.Some? ==>
         c.size >= 2 && Affords(s.tx, s.procs[i].logged, s.procs[i].passed.value, c)
  }

  ghost predicate OneCommitter(s: Sys) {
    && (s.tx.committing ==> forall i :: 0 <= i < |s.procs| ==> !s.procs[i].InOp?)
    && (s.tx.committing <==> exists i :: 0 <= i < |s.procs| && Busy(s.procs[i]))
    && (forall i, j :: 0 <= i < j < |s.procs| ==> !(Busy(s.procs[i]) && Busy(s.procs[j])))
    && (forall i :: 0 <= i < |s.procs| && s.procs[i].Committed? ==> s.tx.targets == [])
  }

  ghost predicate Inv(s: Sys, c: Limits) { Counted(s, c) && Listed(s, c) && OneCommitter(s) }

  lemma AbsorbKeeps(ts: seq<nat>, b: nat)
    requires Distinct(ts)
    ensures Distinct(Absorb(ts, b)) && Elems(Absorb(ts, b)) == Elems(ts) + {b}
    ensures |Absorb(ts, b)| == |ts| + if b in ts then 0 else 1
    ensures forall x :: x in ts ==> x in Absorb(ts, b)
  {
    var r := Absorb(ts, b);
    forall x | x in Elems(ts) + {b} ensures x in Elems(r) {
      if x in Elems(ts) {
        var i :| 0 <= i < |ts| && ts[i] == x;
        assert r[i] == x;
      } else {
        assert b !in ts ==> r[|ts|] == b;
      }
    }
  }

  /** Replacing one entry by one that is as busy leaves who is in commit() unchanged. */
  ghost predicate SameBusy(ps: seq<Proc>, qs: seq<Proc>) {
    |ps| == |qs| && forall i :: 0 <= i < |ps| ==> Busy(ps[i]) == Busy(qs[i]) && ps[i].Committed? == qs[i].Committed?
  }

  /** begin_op admits a third operation only into an empty log, a second only while at most
      MAXOPBLOCKS blocks are listed. */
  lemma BeginKeepsCounted(s: Sys, p: nat, c: Limits)
    requires Counted(s, c) && Enabled(s, BeginOp(p), c)
    ensures Counted(Do(s, BeginOp(p), c), c)
  {
    var q := InOp(0, None);
    UnusedBounds(s.procs, c.quota);
    UnusedBounds(s.procs, MAXOPBLOCKS);
    ActiveAfter(s.procs, p, q);
    UnusedAfter(s.procs, p, q, MAXOPBLOCKS);
    UnusedAfter(s.procs, p, q, c.quota);
    assert s.tx.outstanding == 0 || s.tx.outstanding == 1 || s.tx.outstanding == 2;
  }

  lemma BeginKeepsInv(s: Sys, p: nat, c: Limits)
    requires Inv(s, c) && Enabled(s, BeginOp(p), c)
    ensures Inv(Do(s, BeginOp(p), c), c)
  {
    hide Counted;
    BeginKeepsCounted(s, p, c);
    assert SameBusy(s.procs, s.procs[p := InOp(0, None)]);
  }

  lemma PassKeepsInv(s: Sys, p: nat, b: nat, c: Limits)
    requires Inv(s, c) && Enabled(s, PassTests(p, b), c)
    ensures Inv(Do(s, PassTests(p, b), c), c)
  {
    var q := InOp(s.procs[p].logged, Some(b));
    ActiveAfter(s.procs, p, q);
    UnusedAfter(s.procs, p, q, MAXOPBLOCKS);
    UnusedAfter(s.procs, p, q, c.quota);
    assert SameBusy(s.procs, s.procs[p := q]);
  }

  lemma WriteKeepsInv(s: Sys, p: nat, b: nat, c: Limits)
    requires Inv(s, c) && Enabled(s, LogWrite(p, b), c)
    ensures Inv(Do(s, LogWrite(p, b), c), c)
  {
    AbsorbKeeps(s.tx.targets, b);
    var q := Do(s, LogWrite(p, b), c).procs[p];
    ActiveAfter(s.procs, p, q);
    UnusedAfter(s.procs, p, q, MAXOPBLOCKS);
    UnusedAfter(s.procs, p, q, c.quota);
    NoneActiveIff(s.procs);
    assert SameBusy(s.procs, s.procs[p := q]);
  }

  lemma EndKeepsInv(s: Sys, p: nat, c: Limits)
    requires Inv(s, c) && Enabled(s, EndOp(p), c)
    ensures Inv(Do(s, EndOp(p), c), c)
  {
    var r := Do(s, EndOp(p), c);
    ActiveAfter(s.procs, p, r.procs[p]);
    UnusedAfter(s.procs, p, r.procs[p], MAXOPBLOCKS);
    UnusedAfter(s.procs, p, r.procs[p], c.quota);
    NoneActiveIff(r.procs);
    assert forall i :: 0 <= i < |s.procs| ==> !Busy(s.procs[i]);
    assert Busy(r.procs[p]) <==> s.tx.outstanding == 1;
  }

  lemma CommitKeepsInv(s: Sys, p: nat, q: Proc, c: Limits)
    requires Inv(s, c) && p < |s.procs| && Busy(s.procs[p])
    requires q == Committed || (q == Outside && s.procs[p].Committed?)
    ensures q == Committed ==> Inv(s.(tx := s.tx.(targets := []), procs := s.procs[p := q]), c)
    ensures q == Outside ==> Inv(s.(tx := s.tx.(committing := false), procs := s.procs[p := q]), c)
  {
    var ps := s.procs[p := q];
    ActiveAfter(s.procs, p, q);
    UnusedAfter(s.procs, p, q, MAXOPBLOCKS);
    UnusedAfter(s.procs, p, q, c.quota);
    UnusedBounds(ps, c.quota);
    assert forall i :: 0 <= i < |ps| && i != p ==> ps[i] == s.procs[i] && !Busy(ps[i]);
    assert q == Committed ==> Busy(ps[p]);
  }

  /** Every step of every process keeps the reservation bound: lh.n plus the unused reservations
      of active operations never exceeds LOGSIZE, at most one process is in commit(), and none
      is while an operation is outstanding. */
  lemma StepKeepsInv(s: Sys, a: Action, c: Limits)
    requires Inv(s, c) && Enabled(s, a, c)
    ensures Inv(Do(s, a, c), c)
  {
    hide Inv;
    match a
    case BeginOp(p) => BeginKeepsInv(s, p, c);
    case PassTests(p, b) => PassKeepsInv(s, p, b, c);
    case LogWrite(p, b) => WriteKeepsInv(s, p, b, c);
    case EndOp(p) => EndKeepsInv(s, p, c);
    case Commit(p) => CommitKeepsInv(s, p, Committed, c);
    case Finish(p) => CommitKeepsInv(s, p, Outside, c);
  }

  lemma {:induction false} RunKeepsInv(s: Sys, acts: seq<Action>, c: Limits)
    requires Inv(s, c) && IsRun(s, acts, c)
    ensures Inv(Run(s, acts, c), c)
    decreases |acts|
  {
    hide Inv;
    if acts != [] {
      StepKeepsInv(s, acts[0], c);
      RunKeepsInv(Do(s, acts[0], c), acts[1..], c);
    }
  }

  lemma {:induction false} NobodyActive(nproc: nat, m: nat)
    ensures Active(Boot(nproc).procs) == 0 && Unused(Boot(nproc).procs, m) == 0
  {
    if nproc > 0 {
      NobodyActive(nproc - 1, m);
      assert Boot(nproc).procs[1..] == Boot(nproc - 1).procs;
    }
  }

  lemma RunsKeepInv(nproc: nat, acts: seq<Action>, c: Limits)
    requires IsRun(Boot(nproc), acts, c)
    ensures Inv(Run(Boot(nproc), acts, c), c)
  {
    NobodyActive(nproc, MAXOPBLOCKS);
    NobodyActive(nproc, c.quota);
    RunKeepsInv(Boot(nproc), acts, c);
  }

  lemma {:induction false} RunKeepsCount(s: Sys, acts: seq<Action>, c: Limits)
    requires IsRun(s, acts, c)
    ensures |Run(s, acts, c).procs| == |s.procs|
    decreases |acts|
  {
    if acts != [] { RunKeepsCount(Do(s, acts[0], c), acts[1..], c); }
  }

  /** Admission control, over every run of any number of processes. */
  lemma RunsAreSafe(nproc: nat, acts: seq<Action>, c: Limits)
    requires IsRun(Boot(nproc), acts, c)
    ensures var s := Run(Boot(nproc), acts, c);
            && |s.procs| == nproc
            && |s.tx.targets| + Unused(s.procs, MAXOPBLOCKS) <= LOGSIZE && 0 <= Unused(s.procs, MAXOPBLOCKS)
            && Distinct(s.tx.targets)
            && (s.tx.committing ==> s.tx.outstanding == 0 && forall i :: 0 <= i < nproc ==> !s.procs[i].InOp?)
            && (forall i, j :: 0 <= i < nproc && 0 <= j < nproc && Busy(s.procs[i]) && Busy(s.procs[j]) ==> i == j)
  {
    RunsKeepInv(nproc, acts, c);
    RunKeepsCount(Boot(nproc), acts, c);
    var ps := Run(Boot(nproc), acts, c).procs;
    UnusedBounds(ps, MAXOPBLOCKS);
    NoneActiveIff(ps);
  }

  /** A process can take some step. */
  ghost predicate CanMove(s: Sys, c: Limits) {
    exists a: Action :: Enabled(s, a, c) && (a.BeginOp? || a.LogWrite? || a.EndOp? || a.Commit? || a.Finish?)
  }

  /** No deadlock: in every reachable state some process can begin or end an operation, finish its
      log_write, or go on with its commit. With nothing under way begin_op always admits. */
  lemma NeverStuck(nproc: nat, acts: seq<Action>, c: Limits)
    requires nproc > 0 && IsRun(Boot(nproc), acts, c)
    ensures var s := Run(Boot(nproc), acts, c);
      && CanMove(s, c)
      && (s.tx.outstanding == 0 && !s.tx.committing ==> Admits(s.tx))
  {
    RunsKeepInv(nproc, acts, c);
    RunKeepsCount(Boot(nproc), acts, c);
    var s := Run(Boot(nproc), acts, c);
    NoneActiveIff(s.procs);
    if p :| 0 <= p < nproc && s.procs[p].InOp? {
      var a := if s.procs[p].passed.Some? then LogWrite(p, s.procs[p].passed.value) else EndOp(p);
      assert Enabled(s, a, c);
    } else if p :| 0 <= p < nproc && Busy(s.procs[p]) {
      var a := if s.procs[p].Committing? then Commit(p) else Finish(p);
      assert Enabled(s, a, c);
    } else {
      assert Enabled(s, BeginOp(0), c);
    }
  }

  lemma {:induction false} RunThenStep(s: Sys, acts: seq<Action>, a: Action, c: Limits)
    requires IsRun(s, acts + [a], c)
    ensures IsRun(s, acts, c) && Enabled(Run(s, acts, c), a, c)
    ensures Run(s, acts + [a], c) == Do(Run(s, acts, c), a, c)
    decreases |acts|
  {
    if acts == [] {
      assert acts + [a] == [a];
    } else {
      assert (acts + [a])[1..] == acts[1..] + [a];
      RunThenStep(Do(s, acts[0], c), acts[1..], a, c);
    }
  }

  lemma {:induction false} StepAfterRun(s: Sys, acts: seq<Action>, a: Action, c: Limits)
    requires IsRun(s, acts, c) && Enabled(Run(s, acts, c), a, c)
    ensures IsRun(s, acts + [a], c)
    decreases |acts|
  {
    if acts == [] {
      assert acts + [a] == [a];
    } else {
      assert (acts + [a])[1..] == acts[1..] + [a];
      StepAfterRun(Do(s, acts[0], c), acts[1..], a, c);
    }
  }

  /** The blocks log_write has recorded since the last commit(). */
  function SinceCommit(acts: seq<Action>): (s: set<nat>)
    decreases |acts|
  {
    if acts == [] then {}
    else
      var before := SinceCommit(acts[..|acts| - 1]);
      match acts[|acts| - 1]
      case LogWrite(p, b) => before + {b}
      case Commit(p) => {}
      case _ => before
  }

  /** Group commit: the log always lists exactly the blocks written since the previous commit, and
      when a process gets to run commit() every operation that wrote them has ended. */
  lemma {:induction false} CommitCoversExactly(nproc: nat, acts: seq<Action>, c: Limits)
    requires IsRun(Boot(nproc), acts, c)
    ensures Elems(Run(Boot(nproc), acts, c).tx.targets) == SinceCommit(acts)
    ensures acts != [] && acts[|acts| - 1].Commit? ==>
      && IsRun(Boot(nproc), acts[..|acts| - 1], c)
      && var s := Run(Boot(nproc), acts[..|acts| - 1], c);
      && Elems(s.tx.targets) == SinceCommit(acts[..|acts| - 1])
      && forall i :: 0 <= i < |s.procs| ==> !s.procs[i].InOp?
    decreases |acts|
  {
    if acts != [] {
      var front, a := acts[..|acts| - 1], acts[|acts| - 1];
      assert acts == front + [a];
      RunThenStep(Boot(nproc), front, a, c);
      CommitCoversExactly(nproc, front, c);
      RunsKeepInv(nproc, front, c);
      var s := Run(Boot(nproc), front, c);
      if a.LogWrite? {
        AbsorbKeeps(s.tx.targets, a.b);
      }
      if a.Commit? {
        assert Busy(s.procs[a.p]);
      }
    }
  }

  // ------------------------------------------------- where log_write can panic

  /** A new block within the budget never hits the LOGSIZE limit, so log_write panics on it exactly
      when the log area itself is full. */
  lemma NewBlockPanicsIff(s: Sys, p: nat, b: nat, c: Limits)
    requires Inv(s, c) && MayWrite(s, p, b, c) && b !in s.tx.targets
    ensures !Room(s.tx, c.size) <==> |s.tx.targets| >= c.size - 1
  {
    NoneActiveIff(s.procs);
    ClaimIsUnused(s.procs, p, MAXOPBLOCKS);
  }

  /** A block that needs no new slot panics by either limit; the LOGSIZE limit is reached only when
      every operation in progress has used up a budget of MAXOPBLOCKS. */
  lemma AbsorbedBlockPanicsIff(s: Sys, p: nat, b: nat, c: Limits)
    requires Inv(s, c) && MayWrite(s, p, b, c) && b in s.tx.targets
    ensures !Room(s.tx, c.size) <==> |s.tx.targets| >= LOGSIZE || |s.tx.targets| >= c.size - 1
    ensures |s.tx.targets| >= LOGSIZE ==>
      forall i :: 0 <= i < |s.procs| && s.procs[i].InOp? ==> s.procs[i].logged == MAXOPBLOCKS
  {
    NoneActiveIff(s.procs);
    forall i | 0 <= i < |s.procs| && s.procs[i].InOp? && |s.tx.targets| >= LOGSIZE
      ensures s.procs[i].logged == MAXOPBLOCKS
    {
      ClaimIsUnused(s.procs, i, MAXOPBLOCKS);
    }
  }

  /** The blocks 0, 1, ..., n - 1. */
  function UpTo(n: nat): (ts: seq<nat>) { seq(n, i => i) }

  /** The run leads two processes to the state. */
  ghost predicate Leads(acts: seq<Action>, s: Sys, c: Limits) {
    IsRun(Boot(2), acts, c) && Run(Boot(2), acts, c) == s
  }

  lemma LeadsOn(acts: seq<Action>, s: Sys, a: Action, c: Limits)
    requires Leads(acts, s, c) && Enabled(s, a, c)
    ensures Leads(acts + [a], Do(s, a, c), c)
  {
    StepAfterRun(Boot(2), acts, a, c);
    RunThenStep(Boot(2), acts, a, c);
  }

  /** An operation of process 0 is open, none of process 1, and the log lists k blocks. */
  function Between(k: nat): (s: Sys) { Sys(Tx(1, false, UpTo(k)), [InOp(0, None), Outside]) }

  /** Process 0 has logged i new blocks in its operation, process 1 has logged j in its own, and
      k blocks are left over from earlier operations of process 1. */
  function Both(k: nat, i: nat, j: nat): (s: Sys) {
    Sys(Tx(2, false, UpTo(k + i + j)), [InOp(i, None), InOp(j, None)])
  }

  function Writing(p: nat, b: nat): (acts: seq<Action>) { [PassTests(p, b), LogWrite(p, b)] }

  lemma LeadsToWrite(acts: seq<Action>, s: Sys, p: nat, c: Limits)
    requires Leads(acts, s, c) && s.tx.targets == UpTo(|s.tx.targets|)
    requires MayWrite(s, p, |s.tx.targets|, c) && Room(s.tx, c.size)
    ensures var n := |s.tx.targets|;
            Leads(acts + Writing(p, n),
                  Sys(s.tx.(targets := UpTo(n + 1)), s.procs[p := InOp(s.procs[p].logged + 1, None)]), c)
  {
    var n := |s.tx.targets|;
    LeadsOn(acts, s, PassTests(p, n), c);
    var t := Do(s, PassTests(p, n), c);
    LeadsOn(acts + [PassTests(p, n)], t, LogWrite(p, n), c);
    assert acts + Writing(p, n) == acts + [PassTests(p, n)] + [LogWrite(p, n)];
    assert n !in s.tx.targets;
    assert UpTo(n + 1) == UpTo(n) + [n];
    assert Do(t, LogWrite(p, n), c).procs == s.procs[p := InOp(s.procs[p].logged + 1, None)];
  }

  /** While process 0 has an operation open, process 1 runs k operations of one new block each. */
  function Rounds(k: nat): (acts: seq<Action>)
  {
    if k == 0 then [BeginOp(0)] else Rounds(k - 1) + [BeginOp(1)] + Writing(1, k - 1) + [EndOp(1)]
  }

  lemma {:induction false} RoundsLead(k: nat, c: Limits)
    requires k <= MAXOPBLOCKS && (k > 0 ==> c.quota >= 1 && k < c.size)
    ensures Leads(Rounds(k), Between(k), c)
  {
    if k == 0 {
      assert Boot(2).procs == [Outside, Outside];
      assert Do(Boot(2), BeginOp(0), c) == Between(0);
      assert IsRun(Between(0), [], c);
    } else {
      RoundsLead(k - 1, c);
      LeadsOn(Rounds(k - 1), Between(k - 1), BeginOp(1), c);
      assert Do(Between(k - 1), BeginOp(1), c) == Both(k - 1, 0, 0);
      LeadsToWrite(Rounds(k - 1) + [BeginOp(1)], Both(k - 1, 0, 0), 1, c);
      assert Both(k - 1, 0, 0).procs[1 := InOp(1, None)] == [InOp(0, None), InOp(1, None)];
      LeadsOn(Rounds(k - 1) + [BeginOp(1)] + Writing(1, k - 1), Both(k - 1, 0, 1), EndOp(1), c);
      assert Do(Both(k - 1, 0, 1), EndOp(1), c) == Between(k);
    }
  }

  function Filling(k: nat, i: nat, j: nat): (acts: seq<Action>)
    decreases i + j
  {
    if j > 0 then Filling(k, i, j - 1) + Writing(1, k + i + j - 1)
    else if i > 0 then Filling(k, i - 1, 0) + Writing(0, k + i - 1)
    else Rounds(k) + [BeginOp(1)]
  }

  /** The log can be filled to any number of blocks that the limits leave room for. */
  lemma {:induction false} FillingLeads(k: nat, i: nat, j: nat, c: Limits)
    requires k <= MAXOPBLOCKS && i <= c.quota && j <= c.quota
    requires k + i + j > 0 ==> c.quota >= 1 && k + i + j < c.size
    ensures Leads(Filling(k, i, j), Both(k, i, j), c)
    decreases i + j
  {
    if j > 0 {
      FillingLeads(k, i, j - 1, c);
      LeadsToWrite(Filling(k, i, j - 1), Both(k, i, j - 1), 1, c);
      assert Both(k, i, j - 1).procs[1 := InOp(j, None)] == Both(k, i, j).procs;
    } else if i > 0 {
      FillingLeads(k, i - 1, 0, c);
      LeadsToWrite(Filling(k, i - 1, 0), Both(k, i - 1, 0), 0, c);
      assert Both(k, i - 1, 0).procs[0 := InOp(i, None)] == Both(k, i, 0).procs;
    } else {
      RoundsLead(k, c);
      LeadsOn(Rounds(k), Between(k), BeginOp(1), c);
      assert Do(Between(k), BeginOp(1), c) == Both(k, 0, 0);
    }
  }

  /** log_write panics on the block if the process calls it after the run. */
  ghost predicate PanicsAfter(nproc: nat, acts: seq<Action>, p: nat, b: nat, c: Limits) {
    && IsRun(Boot(nproc), acts, c)
    && var s := Run(Boot(nproc), acts, c);
    && MayWrite(s, p, b, c) && !Room(s.tx, c.size)
  }

  /** Some run lets an admitted operation within its budget hit log_write's panic. */
  ghost predicate CanPanic(c: Limits) {
    exists nproc: nat, acts: seq<Action>, p: nat, b: nat :: PanicsAfter(nproc, acts, p, b, c)
  }

  ghost predicate PanicsOnNewAfter(nproc: nat, acts: seq<Action>, p: nat, b: nat, c: Limits) {
    PanicsAfter(nproc, acts, p, b, c) && b !in Run(Boot(nproc), acts, c).tx.targets
  }

  /** Some run lets it hit the panic on a block that is not in the log yet. */
  ghost predicate CanPanicOnNewBlock(c: Limits) {
    exists nproc: nat, acts: seq<Action>, p: nat, b: nat :: PanicsOnNewAfter(nproc, acts, p, b, c)
  }

  function Min(a: int, b: int): (m: int) { if a <= b then a else b }

  /** log_write can panic on an admitted operation exactly when operations may use all the slots
      begin_op reserves for them, or the log area is too small for what smaller ones can log. */
  lemma CanPanicIff(c: Limits)
    ensures CanPanic(c) <==> c.quota >= 1 && (c.quota == MAXOPBLOCKS || c.size <= Peak(c.quota) + 1)
  {
    forall nproc: nat, acts: seq<Action>, p: nat, b: nat | PanicsAfter(nproc, acts, p, b, c)
      ensures c.quota >= 1 && (c.quota == MAXOPBLOCKS || c.size <= Peak(c.quota) + 1)
    {
      RunsKeepInv(nproc, acts, c);
      var s := Run(Boot(nproc), acts, c);
      NoneActiveIff(s.procs);
      UnusedBounds(s.procs, c.quota);
    }
    if c.quota >= 1 && (c.quota == MAXOPBLOCKS || c.size <= Peak(c.quota) + 1) {
      var n := if c.size == 0 then 0 else Min(LOGSIZE, c.size - 1);
      var k := Min(n, MAXOPBLOCKS);
      var i := Min(n - k, c.quota);
      FillingLeads(k, i, n - k - i, c);
      assert n > 0 ==> UpTo(n)[0] in UpTo(n);
      assert PanicsAfter(2, Filling(k, i, n - k - i), 0, 0, c);
    }
  }

  /** What CanPanicIff says of operations that keep to MAXOPBLOCKS: no size of the log is safe. */
  lemma SomeRunPanics(size: nat)
    ensures CanPanic(Limits(size, MAXOPBLOCKS))
  {
    CanPanicIff(Limits(size, MAXOPBLOCKS));
  }

  /** Only for blocks that are new to the log is a larger log area a cure: begin_op reserves against
      LOGSIZE, log_write also tests against log.size - 1. */
  lemma CanPanicOnNewBlockIff(c: Limits)
    ensures CanPanicOnNewBlock(c) <==> c.quota >= 1 && c.size <= Peak(c.quota)
  {
    forall nproc: nat, acts: seq<Action>, p: nat, b: nat | PanicsOnNewAfter(nproc, acts, p, b, c)
      ensures c.quota >= 1 && c.size <= Peak(c.quota)
    {
      RunsKeepInv(nproc, acts, c);
      var s := Run(Boot(nproc), acts, c);
      NewBlockPanicsIff(s, p, b, c);
      ClaimIsUnused(s.procs, p, c.quota);
    }
    if c.quota >= 1 && c.size <= Peak(c.quota) {
      var n := if c.size == 0 then 0 else c.size - 1;
      var k := Min(n, MAXOPBLOCKS);
      var i := Min(n - k, c.quota);
      FillingLeads(k, i, n - k - i, c);
      assert PanicsOnNewAfter(2, Filling(k, i, n - k - i), 1, n, c);
    }
  }

  /** After the run the log lists a block for which the log area has none: entry e goes to block
      1 + e of the area. */
  ghost predicate SpillsAfter(nproc: nat, acts: seq<Action>, c: Limits) {
    && IsRun(Boot(nproc), acts, c)
    && |Run(Boot(nproc), acts, c).tx.targets| > 0
    && |Run(Boot(nproc), acts, c).tx.targets| >= c.size
  }

  ghost predicate CanSpill(c: Limits) {
    exists nproc: nat, acts: seq<Action> :: SpillsAfter(nproc, acts, c)
  }

  /** Two processes pass the tests for the last slot before either takes log.lock. */
  lemma RaceSpills(k: nat, i: nat, j: nat, c: Limits)
    requires k <= MAXOPBLOCKS && i < c.quota && j < c.quota && k + i + j + 2 == c.size <= LOGSIZE
    ensures CanSpill(c)
  {
    var n := k + i + j;
    FillingLeads(k, i, j, c);
    var s0, acts := Both(k, i, j), Filling(k, i, j);
    LeadsOn(acts, s0, PassTests(0, n), c);
    var s1 := Do(s0, PassTests(0, n), c);
    acts := acts + [PassTests(0, n)];
    LeadsOn(acts, s1, PassTests(1, n + 1), c);
    var s2 := Do(s1, PassTests(1, n + 1), c);
    acts := acts + [PassTests(1, n + 1)];
    LeadsOn(acts, s2, LogWrite(0, n), c);
    var s3 := Do(s2, LogWrite(0, n), c);
    acts := acts + [LogWrite(0, n)];
    LeadsOn(acts, s3, LogWrite(1, n + 1), c);
    assert SpillsAfter(2, acts + [LogWrite(1, n + 1)], c);
  }

  /** As log_write tests before it takes log.lock, the tests do not keep lh.n within the log area:
      that holds only where the reservations alone keep it, or no block can be logged at all. */
  lemma CanSpillIff(c: Limits)
    ensures CanSpill(c) <==> c.quota >= 1 && 2 <= c.size <= Peak(c.quota)
  {
    forall nproc: nat, acts: seq<Action> | SpillsAfter(nproc, acts, c)
      ensures c.quota >= 1 && 2 <= c.size <= Peak(c.quota)
    {
      RunsKeepInv(nproc, acts, c);
      UnusedBounds(Run(Boot(nproc), acts, c).procs, c.quota);
    }
    if c.quota >= 1 && 2 <= c.size <= Peak(c.quota) {
      var n := c.size - 2;
      var k := Min(n, MAXOPBLOCKS);
      var i := Min(n - k, c.quota - 1);
      RaceSpills(k, i, n - k - i, c);
    }
  }
}
