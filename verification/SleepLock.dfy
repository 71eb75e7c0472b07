/** Sleep locks over sleep and wakeup: acquiresleep and releasesleep of sleeplock.c with sleep,
    wakeup1 and the scheduler's switch of proc.c, as atomic steps of any number of processes. The
    lock's own spinlock is lk, the process table's is ptable.lock. */
module SleepLock {
  import opened Wrappers

  /** Where a process is. The letters in brackets say which spinlocks it holds there. */
  datatype Pc =
    | Idle
    | Enter            // acquiresleep: about to acquire lk
    | Test             // [lk] while (lk->locked)
    | SleepFirst       // in sleep(lk, &lk->lk), about to take its first step
    | SleepSecond      // about to take its second step
    | Suspend          // [ptable] about to set SLEEPING and call sched
    | Asleep           // SLEEPING on the lock
    | Runnable         // woken, not yet run
    | Resume           // [ptable] back from sched: chan = 0, about to release ptable.lock
    | Take             // [lk] lk->locked = 1
    | Leave            // [lk] about to release lk, the lock is ours
    | Holding
    | Release          // releasesleep: about to acquire lk
    | Clear            // [lk] lk->locked = 0
    | WakeEnter        // [lk] in wakeup(lk), about to acquire ptable.lock
    | WakeScan         // [lk, ptable] wakeup1
    | WakeLeave        // [lk, ptable] about to release ptable.lock
    | ReleaseLeave     // [lk] about to release lk

  /** ptableFirst: whether sleep acquires ptable.lock before it releases lk, as it does, or after. */
  datatype Sys = Sys(lk: Option<nat>, ptable: Option<nat>, locked: bool, pc: seq<Pc>, ptableFirst: bool)

  /** Run: the process takes its next step. Kill: kill() makes a sleeping process runnable. */
  datatype Action = Run(p: nat) | Kill(p: nat)

  predicate Enabled(s: Sys, a: Action) {
    && a.p < |s.pc|
    && match a
       case Kill(p) => s.pc[p].Asleep? && s.ptable.None?
       case Run(p) =>
         match s.pc[p]
         case Enter => s.lk.None?
         case Release => s.lk.None?
         case WakeEnter => s.ptable.None?
         case SleepFirst => s.ptableFirst ==> s.ptable.None?
         case SleepSecond => !s.ptableFirst ==> s.ptable.None?
         case Runnable => s.ptable.None?
         case Asleep => false
         case _ => true
  }

  function WakeAll(pc: seq<Pc>): (r: seq<Pc>)
    ensures |r| == |pc|
    ensures forall i :: 0 <= i < |pc| ==> r[i] == if pc[i].Asleep? then Runnable else pc[i]
  {
    seq(|pc|, i requires 0 <= i < |pc| => if pc[i].Asleep? then Runnable else pc[i])
  }

  function Do(s: Sys, a: Action): (r: Sys)
    requires Enabled(s, a)
  {
    var p := a.p;
    if a.Kill? then s.(pc := s.pc[p := Runnable])
    else
      match s.pc[p]
      case Idle => s.(pc := s.pc[p := Enter])
      case Enter => s.(lk := Some(p), pc := s.pc[p := Test])
      case Test => s.(pc := s.pc[p := if s.locked then SleepFirst else Take])
      case SleepFirst =>
        if s.ptableFirst then s.(ptable := Some(p), pc := s.pc[p := SleepSecond])
        else s.(lk := None, pc := s.pc[p := SleepSecond])
      case SleepSecond =>
        if s.ptableFirst then s.(lk := None, pc := s.pc[p := Suspend])
        else s.(ptable := Some(p), pc := s.pc[p := Suspend])
      case Suspend => s.(ptable := None, pc := s.pc[p := Asleep])
      case Asleep => s
      case Runnable => s.(ptable := Some(p), pc := s.pc[p := Resume])
      case Resume => s.(ptable := None, pc := s.pc[p := Enter])
      case Take => s.(locked := true, pc := s.pc[p := Leave])
      case Leave => s.(lk := None, pc := s.pc[p := Holding])
      case Holding => s.(pc := s.pc[p := Release])
      case Release => s.(lk := Some(p), pc := s.pc[p := Clear])
      case Clear => s.(locked := false, pc := s.pc[p := WakeEnter])
      case WakeEnter => s.(ptable := Some(p), pc := s.pc[p := WakeScan])
      case WakeScan => s.(pc := WakeAll(s.pc)[p := WakeLeave])
      case WakeLeave => s.(ptable := None, pc := s.pc[p := ReleaseLeave])
      case ReleaseLeave => s.(lk := None, pc := s.pc[p := Idle])
  }

  predicate IsRun(s: Sys, acts: seq<Action>)
    decreases |acts|
  {
    acts == [] || (Enabled(s, acts[0]) && IsRun(Do(s, acts[0]), acts[1..]))
  }

  function After(s: Sys, acts: seq<Action>): (r: Sys)
    requires IsRun(s, acts)
    decreases |acts|
  {
    if acts == [] then s else After(Do(s, acts[0]), acts[1..])
  }

  function Boot(n: nat, ptableFirst: bool): (s: Sys) { Sys(None, None, false, seq(n, i => Idle), ptableFirst) }

  // -------------------------------------------------------------- the invariant

  predicate HoldsLk(c: Pc) {
    c.Test? || c.SleepFirst? || c.SleepSecond? || c.Take? || c.Leave? || c.Clear? || c.WakeEnter? || c.WakeScan?
      || c.WakeLeave? || c.ReleaseLeave?
  }

  predicate HoldsPtable(c: Pc) { c.SleepSecond? || c.Suspend? || c.Resume? || c.WakeScan? || c.WakeLeave? }

  /** The process has the sleep lock. */
  predicate Owns(c: Pc) { c.Leave? || c.Holding? || c.Release? || c.Clear? }

  /** A releaser that has cleared locked and has not finished its wakeup scan. */
  ghost predicate Waking(s: Sys) { exists q :: 0 <= q < |s.pc| && (s.pc[q].WakeEnter? || s.pc[q].WakeScan?) }

  /** Each spinlock is held by exactly the process that is at a place where it holds it. */
  ghost predicate SpinlocksExact(s: Sys) {
    && (forall p :: 0 <= p < |s.pc| ==> (HoldsLk(s.pc[p]) <==> s.lk == Some(p)))
    && (forall p :: 0 <= p < |s.pc| ==> (HoldsPtable(s.pc[p]) <==> s.ptable == Some(p)))
    && (s.lk.Some? ==> s.lk.value < |s.pc|) && (s.ptable.Some? ==> s.ptable.value < |s.pc|)
  }

  /** locked is set exactly while one process owns the sleep lock. */
  ghost predicate OwnerExact(s: Sys) {
    && (forall p :: 0 <= p < |s.pc| && Owns(s.pc[p]) ==> s.locked)
    && (forall p, q :: 0 <= p < q < |s.pc| ==> !(Owns(s.pc[p]) && Owns(s.pc[q])))
    && (s.locked ==> exists p :: 0 <= p < |s.pc| && Owns(s.pc[p]))
    && (forall p :: 0 <= p < |s.pc| && (s.pc[p].SleepFirst? || s.pc[p].SleepSecond?) ==> s.locked)
    && (forall p :: 0 <= p < |s.pc| && s.pc[p].Take? ==> !s.locked)
  }

  /** Whoever sleeps, or is committed to sleeping, will be woken. */
  ghost predicate SleepersSafe(s: Sys) {
    forall p :: 0 <= p < |s.pc| && (s.pc[p].Suspend? || s.pc[p].Asleep?) ==> s.locked || Waking(s)
  }

  ghost predicate Inv(s: Sys) {
    s.ptableFirst && SpinlocksExact(s) && OwnerExact(s) && SleepersSafe(s)
  }

  /** A step moves its own process; of the others, a wakeup scan makes the sleeping ones runnable. */
  lemma Others(s: Sys, a: Action, q: nat)
    requires Enabled(s, a) && q < |s.pc| && q != a.p
    ensures |Do(s, a).pc| == |s.pc|
    ensures Do(s, a).pc[q] == s.pc[q] || (s.pc[q].Asleep? && Do(s, a).pc[q].Runnable?)
  {
  }

  /** The process that moves takes and drops the spinlocks it then holds and no longer holds. */
  lemma Mine(s: Sys, a: Action)
    requires s.ptableFirst && Enabled(s, a)
    requires HoldsLk(s.pc[a.p]) <==> s.lk == Some(a.p)
    requires HoldsPtable(s.pc[a.p]) <==> s.ptable == Some(a.p)
    ensures var r := Do(s, a);
      && |r.pc| == |s.pc| && r.ptableFirst
      && (HoldsLk(r.pc[a.p]) <==> r.lk == Some(a.p)) && (HoldsPtable(r.pc[a.p]) <==> r.ptable == Some(a.p))
      && (forall q :: q != a.p ==> (r.lk == Some(q) <==> s.lk == Some(q)))
      && (forall q :: q != a.p ==> (r.ptable == Some(q) <==> s.ptable == Some(q)))
      && (r.lk == s.lk || r.lk == Some(a.p) || r.lk.None?)
      && (r.ptable == s.ptable || r.ptable == Some(a.p) || r.ptable.None?)
  {
  }

  lemma SpinlocksKept(s: Sys, a: Action)
    requires s.ptableFirst && SpinlocksExact(s) && Enabled(s, a)
    ensures SpinlocksExact(Do(s, a))
  {
    var r := Do(s, a);
    Mine(s, a);
    hide Do;
    forall q | 0 <= q < |r.pc|
      ensures (HoldsLk(r.pc[q]) <==> r.lk == Some(q)) && (HoldsPtable(r.pc[q]) <==> r.ptable == Some(q))
    {
      if q != a.p { Others(s, a, q); }
    }
  }

  /** What a step does to the sleep lock and to its own process's claim on it. */
  lemma MyClaim(s: Sys, a: Action)
    requires s.ptableFirst && Enabled(s, a)
    requires Owns(s.pc[a.p]) ==> s.locked
    requires s.pc[a.p].SleepFirst? || s.pc[a.p].SleepSecond? ==> s.locked
    requires s.pc[a.p].Take? ==> !s.locked
    ensures var r, c := Do(s, a), s.pc[a.p];
      var d := r.pc[a.p];
      && |r.pc| == |s.pc|
      && r.locked == (if a.Run? && c.Take? then true else if a.Run? && c.Clear? then false else s.locked)
      && (Owns(d) <==> (a.Run? && c.Take?) || (Owns(c) && !(a.Run? && c.Clear?)))
      && (d.SleepFirst? || d.SleepSecond? ==> r.locked) && (d.Take? ==> !r.locked)
      && (a.Run? && (c.Take? || c.Clear?) ==> HoldsLk(c))
  {
  }

  lemma OwnerKept(s: Sys, a: Action)
    requires s.ptableFirst && SpinlocksExact(s) && OwnerExact(s) && Enabled(s, a)
    ensures OwnerExact(Do(s, a))
  {
    var r := Do(s, a);
    var p := a.p;
    MyClaim(s, a);
    hide Do;
    forall q | 0 <= q < |s.pc| && q != p ensures
      && |r.pc| == |s.pc| && (Owns(r.pc[q]) <==> Owns(s.pc[q]))
      && (r.pc[q].SleepFirst? || r.pc[q].SleepSecond? ==> s.pc[q] == r.pc[q])
      && (r.pc[q].Take? ==> s.pc[q] == r.pc[q])
    {
      Others(s, a, q);
    }
    if s.locked {
      var o :| 0 <= o < |s.pc| && Owns(s.pc[o]);
      assert r.locked ==> Owns(r.pc[o]);
    } else if r.locked {
      assert Owns(r.pc[p]);
    }
  }

  lemma SleepersKept(s: Sys, a: Action)
    requires Inv(s) && Enabled(s, a)
    ensures SleepersSafe(Do(s, a))
  {
    var r := Do(s, a);
    var p := a.p;
    if Waking(s) {
      var w :| 0 <= w < |s.pc| && (s.pc[w].WakeEnter? || s.pc[w].WakeScan?);
      if w != p { assert r.pc[w] == s.pc[w]; }
      else if a.Run? && s.pc[p].WakeEnter? { assert r.pc[p].WakeScan?; }
    }
    if a.Run? && s.pc[p].Clear? { assert r.pc[p].WakeEnter?; }
  }

  lemma StepKeepsInv(s: Sys, a: Action)
    requires Inv(s) && Enabled(s, a)
    ensures Inv(Do(s, a))
  {
    Mine(s, a);
    hide Do, Enabled, SpinlocksExact, OwnerExact, SleepersSafe;
    SpinlocksKept(s, a);
    OwnerKept(s, a);
    SleepersKept(s, a);
  }

  lemma {:induction false} RunKeepsInv(s: Sys, acts: seq<Action>)
    requires Inv(s) && IsRun(s, acts)
    ensures Inv(After(s, acts))
    decreases |acts|
  {
    if acts != [] {
      StepKeepsInv(s, acts[0]);
      RunKeepsInv(Do(s, acts[0]), acts[1..]);
    }
  }

  /** Nobody sleeps on a free lock, except while a releaser is on its way to wake him. */
  ghost predicate NoLostWakeup(s: Sys) {
    forall p :: 0 <= p < |s.pc| && s.pc[p].Asleep? ==> s.locked || Waking(s)
  }

  ghost predicate AtMostOneOwner(s: Sys) {
    forall p, q :: 0 <= p < |s.pc| && 0 <= q < |s.pc| && Owns(s.pc[p]) && Owns(s.pc[q]) ==> p == q
  }

  /** Over every run of any number of processes: mutual exclusion, and no wakeup is lost. */
  lemma SleepLockIsSafe(n: nat, acts: seq<Action>)
    requires IsRun(Boot(n, true), acts)
    ensures NoLostWakeup(After(Boot(n, true), acts)) && AtMostOneOwner(After(Boot(n, true), acts))
  {
    RunKeepsInv(Boot(n, true), acts);
  }

  /** Some process that has begun to acquire or release the lock can take its next step. */
  ghost predicate CanMove(s: Sys) {
    exists p :: 0 <= p < |s.pc| && !s.pc[p].Idle? && Enabled(s, Run(p))
  }

  lemma InvCanMove(s: Sys, p: nat)
    requires Inv(s) && p < |s.pc| && !s.pc[p].Idle?
    ensures CanMove(s)
  {
    if s.ptable.Some? {
      assert HoldsPtable(s.pc[s.ptable.value]) && Enabled(s, Run(s.ptable.value));
    } else if s.lk.Some? {
      assert HoldsLk(s.pc[s.lk.value]) && Enabled(s, Run(s.lk.value));
    } else if s.pc[p].Asleep? {
      var q :| 0 <= q < |s.pc| && (Owns(s.pc[q]) || s.pc[q].WakeEnter? || s.pc[q].WakeScan?);
      assert Enabled(s, Run(q));
    } else {
      assert Enabled(s, Run(p));
    }
  }

  /** No deadlock: in every reachable state in which anybody is at the lock, somebody who is can move. */
  lemma NeverStuck(n: nat, acts: seq<Action>, p: nat)
    requires IsRun(Boot(n, true), acts)
    requires p < |After(Boot(n, true), acts).pc| && !After(Boot(n, true), acts).pc[p].Idle?
    ensures CanMove(After(Boot(n, true), acts))
  {
    RunKeepsInv(Boot(n, true), acts);
    InvCanMove(After(Boot(n, true), acts), p);
  }

  // ----------------------------------------------------- why the order matters

  ghost predicate Loses(n: nat, ptableFirst: bool, acts: seq<Action>) {
    IsRun(Boot(n, ptableFirst), acts) && !NoLostWakeup(After(Boot(n, ptableFirst), acts))
  }

  /** Some run ends with a process asleep on a free lock that nobody is about to wake. */
  ghost predicate CanLoseWakeup(ptableFirst: bool) {
    exists n: nat, acts: seq<Action> :: Loses(n, ptableFirst, acts)
  }

  ghost predicate Reaches(s: Sys, acts: seq<Action>, t: Sys) { IsRun(s, acts) && After(s, acts) == t }

  lemma {:induction false} Then(s: Sys, acts: seq<Action>, t: Sys, a: Action)
    requires Reaches(s, acts, t) && Enabled(t, a)
    ensures Reaches(s, acts + [a], Do(t, a))
    decreases |acts|
  {
    if acts == [] {
      assert acts + [a] == [a];
      assert [a][1..] == [];
    } else {
      assert (acts + [a])[1..] == acts[1..] + [a];
      Then(Do(s, acts[0]), acts[1..], t, a);
    }
  }

  /** Process 0 acquires the sleep lock. */
  lemma Acquired()
    ensures Reaches(Boot(2, false), [Run(0), Run(0), Run(0), Run(0), Run(0)],
      Sys(None, None, true, [Holding, Idle], false))
  {
    var s := Boot(2, false);
    Then(s, [], s, Run(0));
    Then(s, [Run(0)], Sys(None, None, false, [Enter, Idle], false), Run(0));
    Then(s, [Run(0), Run(0)], Sys(Some(0), None, false, [Test, Idle], false), Run(0));
    Then(s, [Run(0), Run(0), Run(0)], Sys(Some(0), None, false, [Take, Idle], false), Run(0));
    Then(s, [Run(0), Run(0), Run(0), Run(0)], Sys(Some(0), None, true, [Leave, Idle], false), Run(0));
  }

  /** Process 1 finds it held and, with the two steps of sleep swapped, has dropped lk only. */
  lemma Dropped(acts: seq<Action>)
    requires Reaches(Boot(2, false), acts, Sys(None, None, true, [Holding, Idle], false))
    ensures Reaches(Boot(2, false), acts + [Run(1), Run(1), Run(1), Run(1)],
      Sys(None, None, true, [Holding, SleepSecond], false))
  {
    var s := Boot(2, false);
    Then(s, acts, Sys(None, None, true, [Holding, Idle], false), Run(1));
    Then(s, acts + [Run(1)], Sys(None, None, true, [Holding, Enter], false), Run(1));
    Then(s, acts + [Run(1)] + [Run(1)], Sys(Some(1), None, true, [Holding, Test], false), Run(1));
    Then(s, acts + [Run(1)] + [Run(1)] + [Run(1)], Sys(Some(1), None, true, [Holding, SleepFirst], false), Run(1));
    assert acts + [Run(1)] + [Run(1)] + [Run(1)] + [Run(1)] == acts + [Run(1), Run(1), Run(1), Run(1)];
  }

  /** Process 0 clears locked. */
  lemma Cleared(acts: seq<Action>)
    requires Reaches(Boot(2, false), acts, Sys(None, None, true, [Holding, SleepSecond], false))
    ensures Reaches(Boot(2, false), acts + [Run(0)] + [Run(0)] + [Run(0)],
      Sys(Some(0), None, false, [WakeEnter, SleepSecond], false))
  {
    var s := Boot(2, false);
    hide Reaches, Boot;
    Then(s, acts, Sys(None, None, true, [Holding, SleepSecond], false), Run(0));
    Then(s, acts + [Run(0)], Sys(None, None, true, [Release, SleepSecond], false), Run(0));
    Then(s, acts + [Run(0)] + [Run(0)], Sys(Some(0), None, true, [Clear, SleepSecond], false), Run(0));
  }

  /** It scans for sleepers: there is none yet. */
  lemma Scanned(acts: seq<Action>)
    requires Reaches(Boot(2, false), acts, Sys(Some(0), None, false, [WakeEnter, SleepSecond], false))
    ensures Reaches(Boot(2, false), acts + [Run(0)] + [Run(0)] + [Run(0)],
      Sys(Some(0), None, false, [ReleaseLeave, SleepSecond], false))
  {
    var s := Boot(2, false);
    hide Reaches, Boot;
    Then(s, acts, Sys(Some(0), None, false, [WakeEnter, SleepSecond], false), Run(0));
    assert WakeAll([WakeScan, SleepSecond])[0 := WakeLeave] == [WakeLeave, SleepSecond];
    Then(s, acts + [Run(0)], Sys(Some(0), Some(0), false, [WakeScan, SleepSecond], false), Run(0));
    Then(s, acts + [Run(0)] + [Run(0)], Sys(Some(0), Some(0), false, [WakeLeave, SleepSecond], false), Run(0));
  }

  /** Only then does process 1 fall asleep. */
  lemma SwappedOrderLoses()
    ensures CanLoseWakeup(false)
  {
    Acquired();
    var a1: seq<Action> := [Run(0), Run(0), Run(0), Run(0), Run(0)];
    Dropped(a1);
    var a2 := a1 + [Run(1), Run(1), Run(1), Run(1)];
    Cleared(a2);
    var a3 := a2 + [Run(0)] + [Run(0)] + [Run(0)];
    Scanned(a3);
    a3 := a3 + [Run(0)] + [Run(0)] + [Run(0)];
    var s := Boot(2, false);
    Then(s, a3, Sys(Some(0), None, false, [ReleaseLeave, SleepSecond], false), Run(1));
    Then(s, a3 + [Run(1)], Sys(Some(0), Some(1), false, [ReleaseLeave, Suspend], false), Run(1));
    var acts := a3 + [Run(1)] + [Run(1)];
    assert Reaches(s, acts, Sys(Some(0), None, false, [ReleaseLeave, Asleep], false));
    assert After(s, acts).pc[1].Asleep? && !Waking(After(s, acts));
    assert Loses(2, false, acts);
  }

  /** Taking ptable.lock before dropping lk is what keeps wakeups from being lost. */
  lemma OrderMattersIff(ptableFirst: bool)
    ensures !CanLoseWakeup(ptableFirst) <==> ptableFirst
  {
    if ptableFirst {
      forall n: nat, acts: seq<Action> ensures !Loses(n, true, acts) {
        if IsRun(Boot(n, true), acts) { SleepLockIsSafe(n, acts); }
      }
    } else {
      SwappedOrderLoses();
    }
  }
}
