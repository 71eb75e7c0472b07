/** The VIP channel of offline.cpp: left-to-right and right-to-left passengers, each direction with
    a counter and a mutex; the first of a group locks the other direction's mutex and the last one
    unlocks it. VIP_LR_waiting and the two mutexes around it can only delay passengers: they are in
    VipGate, whose runs are runs of this channel. */
module VipChannel {

  /** Direction 0 is left to right, 1 is right to left. */
  type Dir = d: int | 0 <= d < 2

  function Other(d: Dir): (e: Dir) { 1 - d }

  datatype Stage =
    | Outside
    | WantIn      // about to lock the own direction's mutex
    | Counting    // [own] count++, and the test for being first
    | WaitOther   // [own] first of the group, locking the other direction's mutex
    | LeaveIn     // [own] about to unlock
    | Crossing
    | WantOut     // about to lock the own direction's mutex again
    | Discounting // [own] count--, and the test for being last
    | LeaveOut    // [own] about to unlock

  datatype Passenger = Passenger(dir: Dir, stage: Stage)

  /** mutex[d] and count[d] are VIP_LR_mutex, VIP_LR_count and their RL counterparts. */
  datatype Sys = Sys(mutex: seq<bool>, count: seq<int>, ps: seq<Passenger>)

  predicate Shaped(s: Sys) { |s.mutex| == 2 && |s.count| == 2 }

  /** Passenger p takes his next step; dir is the way he goes if he is outside. */
  datatype Action = Action(p: nat, dir: Dir)

  predicate Enabled(s: Sys, a: Action)
    requires Shaped(s)
  {
    && a.p < |s.ps|
    && var x := s.ps[a.p];
    match x.stage
    case WantIn => !s.mutex[x.dir]
    case WantOut => !s.mutex[x.dir]
    case WaitOther => !s.mutex[Other(x.dir)]
    case _ => true
  }

  function Move(s: Sys, p: nat, stage: Stage): (r: Sys)
    requires p < |s.ps|
  {
    s.(ps := s.ps[p := s.ps[p].(stage := stage)])
  }

  function Do(s: Sys, a: Action): (r: Sys)
    requires Shaped(s) && Enabled(s, a)
    ensures Shaped(r) && |r.ps| == |s.ps|
  {
    var p, d := a.p, s.ps[a.p].dir;
    match s.ps[p].stage
    case Outside => s.(ps := s.ps[p := Passenger(a.dir, WantIn)])
    case WantIn => Move(s, p, Counting).(mutex := s.mutex[d := true])
    case Counting =>
      Move(s, p, if s.count[d] + 1 == 1 then WaitOther else LeaveIn).(count := s.count[d := s.count[d] + 1])
    case WaitOther => Move(s, p, LeaveIn).(mutex := s.mutex[Other(d) := true])
    case LeaveIn => Move(s, p, Crossing).(mutex := s.mutex[d := false])
    case Crossing => Move(s, p, WantOut)
    case WantOut => Move(s, p, Discounting).(mutex := s.mutex[d := true])
    case Discounting =>
      Move(s, p, LeaveOut).(count := s.count[d := s.count[d] - 1],
                            mutex := if s.count[d] - 1 == 0 then s.mutex[Other(d) := false] else s.mutex)
    case LeaveOut => Move(s, p, Outside).(mutex := s.mutex[d := false])
  }

  predicate IsRun(s: Sys, acts: seq<Action>)
    requires Shaped(s)
    decreases |acts|
  {
    acts == [] || (Enabled(s, acts[0]) && IsRun(Do(s, acts[0]), acts[1..]))
  }

  function After(s: Sys, acts: seq<Action>): (r: Sys)
    requires Shaped(s) && IsRun(s, acts)
    ensures Shaped(r) && |r.ps| == |s.ps|
    decreases |acts|
  {
    if acts == [] then s else After(Do(s, acts[0]), acts[1..])
  }

  function Boot(n: nat): (s: Sys)
    ensures Shaped(s)
  {
    Sys([false, false], [0, 0], seq(n, i => Passenger(0, Outside)))
  }

  // -------------------------------------------------------------- the invariant

  /** Between locking and unlocking the own direction's mutex. */
  predicate Inside(x: Passenger, d: Dir) {
    x.dir == d && (x.stage.Counting? || x.stage.WaitOther? || x.stage.LeaveIn? || x.stage.Discounting?
      || x.stage.LeaveOut?)
  }

  /** Member of a group that has the other direction's mutex. */
  predicate Grouped(x: Passenger, d: Dir) {
    x.dir == d && (x.stage.LeaveIn? || x.stage.Crossing? || x.stage.WantOut? || x.stage.Discounting?)
  }

  predicate Counted(x: Passenger, d: Dir) { Grouped(x, d) || (x.dir == d && x.stage.WaitOther?) }

  function Tally(ps: seq<Passenger>, d: Dir): (n: nat) {
    if ps == [] then 0 else (if Counted(ps[0], d) then 1 else 0) + Tally(ps[1..], d)
  }

  ghost predicate Active(s: Sys, d: Dir) { exists p :: 0 <= p < |s.ps| && Grouped(s.ps[p], d) }

  ghost predicate InUse(s: Sys, d: Dir) { exists p :: 0 <= p < |s.ps| && Inside(s.ps[p], d) }

  /** Mutex d is locked exactly while one passenger is inside it or the other direction's group has
      it, never both; count d is the number of passengers counted. */
  ghost predicate DirInv(s: Sys, d: Dir)
    requires Shaped(s)
  {
    && (s.mutex[d] <==> InUse(s, d) || Active(s, Other(d)))
    && !(InUse(s, d) && Active(s, Other(d)))
    && (forall p, q :: 0 <= p < q < |s.ps| ==> !(Inside(s.ps[p], d) && Inside(s.ps[q], d)))
    && s.count[d] == Tally(s.ps, d)
    && (forall p :: 0 <= p < |s.ps| && s.ps[p].dir == d && s.ps[p].stage.WaitOther? ==> s.count[d] == 1)
  }

  ghost predicate Inv(s: Sys)
    requires Shaped(s)
  {
    DirInv(s, 0) && DirInv(s, 1) && !(Active(s, 0) && Active(s, 1))
  }

  lemma {:induction false} TallyAfter(ps: seq<Passenger>, p: nat, x: Passenger, d: Dir)
    requires p < |ps|
    ensures Tally(ps[p := x], d) == Tally(ps, d) - (if Counted(ps[p], d) then 1 else 0)
      + (if Counted(x, d) then 1 else 0)
  {
    if p == 0 {
      assert ps[0 := x][1..] == ps[1..];
    } else {
      TallyAfter(ps[1..], p - 1, x, d);
      assert ps[p := x][1..] == ps[1..][p - 1 := x];
    }
  }

  lemma {:induction false} TallyAtLeast(ps: seq<Passenger>, p: nat, d: Dir)
    requires p < |ps| && Counted(ps[p], d)
    ensures Tally(ps, d) >= 1
    ensures forall q :: 0 <= q < |ps| && q != p && Counted(ps[q], d) ==> Tally(ps, d) >= 2
  {
    if p > 0 { TallyAtLeast(ps[1..], p - 1, d); assert ps[1..][p - 1] == ps[p]; }
    forall q | 0 <= q < |ps| && q != p && Counted(ps[q], d) ensures Tally(ps, d) >= 2 {
      if p == 0 {
        TallyAtLeast(ps[1..], q - 1, d);
      } else if q > 0 {
        assert ps[1..][q - 1] == ps[q];
      }
    }
  }

  lemma {:induction false} TallyFinds(ps: seq<Passenger>, d: Dir) returns (p: nat)
    requires Tally(ps, d) >= 1
    ensures p < |ps| && Counted(ps[p], d)
  {
    if Counted(ps[0], d) { p := 0; } else { p := TallyFinds(ps[1..], d); p := p + 1; }
  }

  ghost predicate OtherInside(s: Sys, p: nat, d: Dir) { exists q :: 0 <= q < |s.ps| && q != p && Inside(s.ps[q], d) }

  ghost predicate OtherGrouped(s: Sys, p: nat, d: Dir) { exists q :: 0 <= q < |s.ps| && q != p && Grouped(s.ps[q], d) }

  ghost predicate SameOthers(s: Sys, r: Sys, p: nat) {
    p < |s.ps| == |r.ps| && forall q :: 0 <= q < |s.ps| && q != p ==> r.ps[q] == s.ps[q]
  }

  /** Passenger p and the others, before and after a step of p. */
  lemma Apart(s: Sys, r: Sys, p: nat, d: Dir)
    requires SameOthers(s, r, p)
    ensures InUse(s, d) <==> Inside(s.ps[p], d) || OtherInside(s, p, d)
    ensures InUse(r, d) <==> Inside(r.ps[p], d) || OtherInside(s, p, d)
    ensures Active(s, d) <==> Grouped(s.ps[p], d) || OtherGrouped(s, p, d)
    ensures Active(r, d) <==> Grouped(r.ps[p], d) || OtherGrouped(s, p, d)
    ensures Tally(r.ps, d) == Tally(s.ps, d) - (if Counted(s.ps[p], d) then 1 else 0)
      + (if Counted(r.ps[p], d) then 1 else 0)
  {
    if q :| 0 <= q < |s.ps| && q != p && Inside(s.ps[q], d) { assert Inside(r.ps[q], d); }
    if q :| 0 <= q < |s.ps| && q != p && Grouped(s.ps[q], d) { assert Grouped(r.ps[q], d); }
    assert r.ps == s.ps[p := r.ps[p]];
    TallyAfter(s.ps, p, r.ps[p], d);
  }

  /** While p is inside, nobody else of his direction is, so whoever else is counted is grouped. */
  lemma AloneInside(s: Sys, p: nat, d: Dir)
    requires Shaped(s) && Inv(s) && p < |s.ps| && Inside(s.ps[p], d)
    ensures !OtherInside(s, p, d) && !Active(s, Other(d))
    ensures s.count[d] - (if Counted(s.ps[p], d) then 1 else 0) >= 1 <==> OtherGrouped(s, p, d)
  {
    assert DirInv(s, d);
    assert InUse(s, d);
    if q :| 0 <= q < |s.ps| && q != p && Grouped(s.ps[q], d) {
      TallyAtLeast(s.ps, q, d);
    }
    if s.count[d] - (if Counted(s.ps[p], d) then 1 else 0) >= 1 {
      var out := s.ps[p := Passenger(d, Outside)];
      TallyAfter(s.ps, p, Passenger(d, Outside), d);
      var q := TallyFinds(out, d);
      assert q != p && s.ps[q] == out[q] && Grouped(s.ps[q], d);
    }
  }

  lemma InvFor(s: Sys, d: Dir)
    requires Shaped(s)
    ensures Inv(s) <==> DirInv(s, d) && DirInv(s, Other(d)) && !(Active(s, d) && Active(s, Other(d)))
  {
    assert d == 0 || d == 1;
  }

  /** The clauses of the invariant that speak of single passengers, after a step of p. */
  lemma SinglesKept(s: Sys, r: Sys, p: nat, d: Dir)
    requires Shaped(s) && Shaped(r) && DirInv(s, d) && SameOthers(s, r, p)
    requires Inside(r.ps[p], d) ==> !OtherInside(s, p, d)
    requires r.count[d] != s.count[d] ==> !OtherInside(s, p, d)
    requires r.ps[p].dir == d && r.ps[p].stage.WaitOther? ==> r.count[d] == 1
    ensures forall i, j :: 0 <= i < j < |r.ps| ==> !(Inside(r.ps[i], d) && Inside(r.ps[j], d))
    ensures forall i :: 0 <= i < |r.ps| && r.ps[i].dir == d && r.ps[i].stage.WaitOther? ==> r.count[d] == 1
  {
    forall i | 0 <= i < |r.ps| && r.ps[i].dir == d && r.ps[i].stage.WaitOther? ensures r.count[d] == 1 {
      if i != p { assert Inside(s.ps[i], d); }
    }
  }

  /** Walking across the channel changes no count and no mutex. */
  lemma WalksKeepsInv(s: Sys, a: Action)
    requires Shaped(s) && Inv(s) && Enabled(s, a) && s.ps[a.p].stage.Crossing?
    ensures Inv(Do(s, a))
  {
    var r := Do(s, a);
    var p := a.p;
    var d := s.ps[p].dir;
    var e := Other(d);
    assert SameOthers(s, r, p);
    InvFor(s, d);
    InvFor(r, d);
    Apart(s, r, p, d);
    Apart(s, r, p, e);
    hide Active, InUse, OtherInside, OtherGrouped, Tally;
    SinglesKept(s, r, p, d);
    SinglesKept(s, r, p, e);
  }

  /** Nor does arriving, in either direction. */
  lemma ArrivesKeepsInv(s: Sys, a: Action)
    requires Shaped(s) && Inv(s) && Enabled(s, a) && s.ps[a.p].stage.Outside?
    ensures Inv(Do(s, a))
  {
    var r := Do(s, a);
    var p := a.p;
    var d := s.ps[p].dir;
    var e := Other(d);
    assert SameOthers(s, r, p);
    InvFor(s, d);
    InvFor(r, d);
    Apart(s, r, p, d);
    Apart(s, r, p, e);
    hide Active, InUse, OtherInside, OtherGrouped, Tally;
    SinglesKept(s, r, p, d);
    SinglesKept(s, r, p, e);
  }

  /** Locking the own mutex, which nobody holds. */
  lemma LocksKeepsInv(s: Sys, a: Action)
    requires Shaped(s) && Inv(s) && Enabled(s, a) && (s.ps[a.p].stage.WantIn? || s.ps[a.p].stage.WantOut?)
    ensures Inv(Do(s, a))
  {
    var r := Do(s, a);
    var p := a.p;
    var d := s.ps[p].dir;
    var e := Other(d);
    assert SameOthers(s, r, p);
    InvFor(s, d);
    InvFor(r, d);
    Apart(s, r, p, d);
    Apart(s, r, p, e);
    hide Active, InUse, OtherInside, OtherGrouped, Tally;
    SinglesKept(s, r, p, d);
    SinglesKept(s, r, p, e);
  }

  /** Being counted: the first goes for the other mutex, the others join a group that has it. */
  lemma CountsKeepsInv(s: Sys, a: Action)
    requires Shaped(s) && Inv(s) && Enabled(s, a) && s.ps[a.p].stage.Counting?
    ensures Inv(Do(s, a))
  {
    var r := Do(s, a);
    var p := a.p;
    var d := s.ps[p].dir;
    var e := Other(d);
    assert SameOthers(s, r, p);
    InvFor(s, d);
    InvFor(r, d);
    Apart(s, r, p, d);
    Apart(s, r, p, e);
    AloneInside(s, p, d);
    hide Active, InUse, OtherInside, OtherGrouped, Tally;
    SinglesKept(s, r, p, d);
    SinglesKept(s, r, p, e);
  }

  /** The first of a group gets the other direction's mutex: nobody of that direction is inside or crossing. */
  lemma JoinsKeepsInv(s: Sys, a: Action)
    requires Shaped(s) && Inv(s) && Enabled(s, a) && s.ps[a.p].stage.WaitOther?
    ensures Inv(Do(s, a))
  {
    var r := Do(s, a);
    var p := a.p;
    var d := s.ps[p].dir;
    var e := Other(d);
    assert SameOthers(s, r, p);
    InvFor(s, d);
    InvFor(r, d);
    Apart(s, r, p, d);
    Apart(s, r, p, e);
    AloneInside(s, p, d);
    hide Active, InUse, OtherInside, OtherGrouped, Tally;
    SinglesKept(s, r, p, d);
    SinglesKept(s, r, p, e);
  }

  /** Unlocking the own mutex. */
  lemma UnlocksKeepsInv(s: Sys, a: Action)
    requires Shaped(s) && Inv(s) && Enabled(s, a) && (s.ps[a.p].stage.LeaveIn? || s.ps[a.p].stage.LeaveOut?)
    ensures Inv(Do(s, a))
  {
    var r := Do(s, a);
    var p := a.p;
    var d := s.ps[p].dir;
    var e := Other(d);
    assert SameOthers(s, r, p);
    InvFor(s, d);
    InvFor(r, d);
    Apart(s, r, p, d);
    Apart(s, r, p, e);
    AloneInside(s, p, d);
    hide Active, InUse, OtherInside, OtherGrouped, Tally;
    SinglesKept(s, r, p, d);
    SinglesKept(s, r, p, e);
  }

  /** Leaving the group: the last one gives the other mutex back. */
  lemma DiscountsKeepsInv(s: Sys, a: Action)
    requires Shaped(s) && Inv(s) && Enabled(s, a) && s.ps[a.p].stage.Discounting?
    ensures Inv(Do(s, a))
  {
    var r := Do(s, a);
    var p := a.p;
    var d := s.ps[p].dir;
    var e := Other(d);
    assert SameOthers(s, r, p);
    InvFor(s, d);
    InvFor(r, d);
    Apart(s, r, p, d);
    Apart(s, r, p, e);
    AloneInside(s, p, d);
    hide Active, InUse, OtherInside, OtherGrouped, Tally;
    SinglesKept(s, r, p, d);
    SinglesKept(s, r, p, e);
  }

  lemma StepKeepsInv(s: Sys, a: Action)
    requires Shaped(s) && Inv(s) && Enabled(s, a)
    ensures Inv(Do(s, a))
  {
    hide Inv, Do;
    match s.ps[a.p].stage
    case Outside => ArrivesKeepsInv(s, a);
    case Crossing => WalksKeepsInv(s, a);
    case WantIn => LocksKeepsInv(s, a);
    case WantOut => LocksKeepsInv(s, a);
    case Counting => CountsKeepsInv(s, a);
    case WaitOther => JoinsKeepsInv(s, a);
    case LeaveIn => UnlocksKeepsInv(s, a);
    case LeaveOut => UnlocksKeepsInv(s, a);
    case Discounting => DiscountsKeepsInv(s, a);
  }

  lemma {:induction false} RunKeepsInv(s: Sys, acts: seq<Action>)
    requires Shaped(s) && Inv(s) && IsRun(s, acts)
    ensures Inv(After(s, acts))
    decreases |acts|
  {
    if acts != [] {
      StepKeepsInv(s, acts[0]);
      RunKeepsInv(Do(s, acts[0]), acts[1..]);
    }
  }

  lemma {:induction false} NobodyCounted(n: nat, d: Dir)
    ensures Tally(Boot(n).ps, d) == 0
  {
    if n > 0 {
      NobodyCounted(n - 1, d);
      assert Boot(n).ps[1..] == Boot(n - 1).ps;
    }
  }

  lemma RunsKeepInv(n: nat, acts: seq<Action>)
    requires IsRun(Boot(n), acts)
    ensures Inv(After(Boot(n), acts))
  {
    NobodyCounted(n, 0);
    NobodyCounted(n, 1);
    RunKeepsInv(Boot(n), acts);
  }

  /** In every reachable interleaving of any number of passengers, nobody crosses from left to right
      while anybody crosses from right to left. */
  lemma DirectionsExclude(n: nat, acts: seq<Action>, p: nat, q: nat)
    requires IsRun(Boot(n), acts) && p < n && q < n
    ensures var s := After(Boot(n), acts);
      p < |s.ps| && q < |s.ps| && (s.ps[p].stage.Crossing? && s.ps[q].stage.Crossing? ==> s.ps[p].dir == s.ps[q].dir)
  {
    RunsKeepInv(n, acts);
    var s := After(Boot(n), acts);
    assert s.ps[p].stage.Crossing? ==> Grouped(s.ps[p], s.ps[p].dir);
    assert s.ps[q].stage.Crossing? ==> Grouped(s.ps[q], s.ps[q].dir);
  }

  // ------------------------------------------------------------------ deadlock

  /** The firsts of two groups, each inside the mutex the other one is waiting for. */
  predicate Opposed(s: Sys, p: nat, q: nat) {
    && p < |s.ps| && q < |s.ps|
    && s.ps[p].dir == 0 && s.ps[p].stage.WaitOther? && s.ps[q].dir == 1 && s.ps[q].stage.WaitOther?
  }

  /** Somebody is in the channel's code, and none of those who are can take a step. */
  ghost predicate Halted(s: Sys)
    requires Shaped(s)
  {
    && (exists p :: 0 <= p < |s.ps| && !s.ps[p].stage.Outside?)
    && forall p :: 0 <= p < |s.ps| && !s.ps[p].stage.Outside? ==> !Enabled(s, Action(p, 0))
  }

  /** Between two who are opposed nobody crosses, and nobody else is inside. */
  lemma OpposedAlone(s: Sys, p: nat, q: nat, x: nat)
    requires Shaped(s) && Inv(s) && Opposed(s, p, q) && x < |s.ps| && x != p && x != q
    ensures s.mutex[0] && s.mutex[1] && !Active(s, 0) && !Active(s, 1)
    ensures s.ps[x].stage.Outside? || s.ps[x].stage.WantIn?
  {
    assert Inside(s.ps[p], 0) && Inside(s.ps[q], 1);
    assert InUse(s, 0) && InUse(s, 1);
    var d := s.ps[x].dir;
    assert !Inside(s.ps[x], d) && !Grouped(s.ps[x], d);
  }

  /** Of those who halt, one is inside a mutex and waits for the other's. */
  lemma HaltedInside(s: Sys, d: Dir) returns (p: nat)
    requires Shaped(s) && Inv(s) && Halted(s) && (s.mutex[d] || InUse(s, d))
    ensures p < |s.ps| && s.ps[p].dir == d && s.ps[p].stage.WaitOther?
  {
    hide Tally;
    if InUse(s, d) {
      p :| 0 <= p < |s.ps| && Inside(s.ps[p], d);
      assert !Enabled(s, Action(p, 0));
    } else {
      var x :| 0 <= x < |s.ps| && Grouped(s.ps[x], Other(d));
      assert !Enabled(s, Action(x, 0)) && s.mutex[Other(d)];
      assert Active(s, Other(d)) && !Active(s, d);
      var y :| 0 <= y < |s.ps| && Inside(s.ps[y], Other(d));
      assert !Enabled(s, Action(y, 0));
      TallyAtLeast(s.ps, y, Other(d));
      assert false;
    }
  }

  /** The channel comes to a halt exactly when a left-to-right and a right-to-left passenger have each
      become the first of a group before either got the other direction's mutex. */
  lemma HaltedIff(s: Sys)
    requires Shaped(s) && Inv(s)
    ensures Halted(s) <==> exists p: nat, q: nat :: Opposed(s, p, q)
  {
    if Halted(s) {
      var x :| 0 <= x < |s.ps| && !s.ps[x].stage.Outside?;
      var d := s.ps[x].dir;
      assert !Enabled(s, Action(x, 0));
      assert s.ps[x].stage.WaitOther? ==> Inside(s.ps[x], d) && InUse(s, d);
      var p := HaltedInside(s, d);
      assert !Enabled(s, Action(p, 0));
      var q := HaltedInside(s, Other(d));
      assert if d == 0 then Opposed(s, p, q) else Opposed(s, q, p);
    }
    if p: nat, q: nat :| Opposed(s, p, q) {
      assert Inside(s.ps[p], 0) && Inside(s.ps[q], 1) && InUse(s, 0) && InUse(s, 1);
      forall x | 0 <= x < |s.ps| && !s.ps[x].stage.Outside? ensures !Enabled(s, Action(x, 0)) {
        if x != p && x != q { OpposedAlone(s, p, q, x); }
      }
    }
  }

  /** And then for good: the two never move again, and nobody ever crosses. */
  lemma {:induction false} OpposedForever(s: Sys, p: nat, q: nat, acts: seq<Action>)
    requires Shaped(s) && Inv(s) && Opposed(s, p, q) && IsRun(s, acts)
    ensures Opposed(After(s, acts), p, q)
    ensures forall x :: 0 <= x < |s.ps| ==> !After(s, acts).ps[x].stage.Crossing?
    decreases |acts|
  {
    assert Inside(s.ps[p], 0) && Inside(s.ps[q], 1) && InUse(s, 0) && InUse(s, 1);
    if acts == [] {
      forall x | 0 <= x < |s.ps| ensures !s.ps[x].stage.Crossing? {
        if x != p && x != q { OpposedAlone(s, p, q, x); }
      }
    } else {
      assert acts[0].p != p && acts[0].p != q;
      StepKeepsInv(s, acts[0]);
      OpposedForever(Do(s, acts[0]), p, q, acts[1..]);
    }
  }
}
