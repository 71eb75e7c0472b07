/** The security check of offline.cpp: N belts of P places each, the counting semaphores belt_empty
    (places) and sec_check_empty (belts), the counter belts_count with its mutex, and the array of
    occupied places; any number of passengers. */
module Belts {
  import opened Wrappers

  /** get_idx(belts, n, false): the first free place, None for -1. */
  function FirstFree(belts: seq<bool>): (i: Option<nat>)
    ensures i.Some? ==> i.value < |belts| && !belts[i.value] && forall j :: 0 <= j < i.value ==> belts[j]
    ensures i.None? <==> forall j :: 0 <= j < |belts| ==> belts[j]
  {
    if belts == [] then None
    else if !belts[0] then Some(0)
    else
      var r := FirstFree(belts[1..]);
      assert forall j :: 1 <= j < |belts| ==> belts[j] == belts[1..][j - 1];
      if r.None? then None else Some(r.value + 1)
  }

  /** std::find, as the loop it is. */
  method GetIdx(belts: array<bool>) returns (i: int)
    ensures i == match FirstFree(belts[..]) case None => -1 case Some(k) => k
  {
    i := 0;
    while i < belts.Length
      invariant 0 <= i <= belts.Length
      invariant forall j :: 0 <= j < i ==> belts[j]
    {
      if !belts[i] { return; }
      i := i + 1;
    }
    i := -1;
  }

  datatype Stage =
    | Outside
    | HasPlace       // past sem_wait(&belt_empty), about to lock the mutex
    | Entering       // [mutex] belts_count++ and the search for a place
    | TakingBelt     // [mutex] the test for a full belt, and sem_wait(&sec_check_empty)
    | EnterDone      // [mutex] about to unlock
    | Checking       // sleeps for the service
    | WantOut        // about to lock the mutex
    | Leaving        // [mutex] belts_count--, the place given back, sem_post if a belt emptied
    | LeaveDone      // [mutex] about to unlock
    | Posting        // about to sem_post(&belt_empty)

  datatype Passenger = Passenger(stage: Stage, place: nat)

  /** Belt b is places b * P .. b * P + P - 1. */
  datatype Sys = Sys(N: nat, P: nat, placesLeft: int, beltsLeft: int, mutex: bool, count: int,
                     belts: seq<bool>, ps: seq<Passenger>)

  predicate Shaped(s: Sys) { s.P >= 1 && |s.belts| == s.N * s.P }

  predicate Enabled(s: Sys, p: nat)
    requires Shaped(s)
  {
    && p < |s.ps|
    && match s.ps[p].stage
       case Outside => s.placesLeft > 0
       case HasPlace => !s.mutex
       case WantOut => !s.mutex
       case Entering => FirstFree(s.belts).Some?        // belts[-1] otherwise
       case TakingBelt => s.count % s.P == 0 ==> s.beltsLeft > 0
       case Leaving => s.ps[p].place < |s.belts|
       case _ => true
  }

  function To(s: Sys, p: nat, stage: Stage): (r: Sys)
    requires p < |s.ps|
  {
    s.(ps := s.ps[p := s.ps[p].(stage := stage)])
  }

  function Do(s: Sys, p: nat): (r: Sys)
    requires Shaped(s) && Enabled(s, p)
    ensures Shaped(r) && |r.ps| == |s.ps| && r.N == s.N && r.P == s.P
  {
    match s.ps[p].stage
    case Outside => To(s, p, HasPlace).(placesLeft := s.placesLeft - 1)
    case HasPlace => To(s, p, Entering).(mutex := true)
    case Entering =>
      var i := FirstFree(s.belts).value;
      s.(count := s.count + 1, belts := s.belts[i := true], ps := s.ps[p := Passenger(TakingBelt, i)])
    case TakingBelt => To(s, p, EnterDone).(beltsLeft := if s.count % s.P == 0 then s.beltsLeft - 1 else s.beltsLeft)
    case EnterDone => To(s, p, Checking).(mutex := false)
    case Checking => To(s, p, WantOut)
    case WantOut => To(s, p, Leaving).(mutex := true)
    case Leaving =>
      To(s, p, LeaveDone).(count := s.count - 1, belts := s.belts[s.ps[p].place := false],
                           beltsLeft := if s.count % s.P == 0 then s.beltsLeft + 1 else s.beltsLeft)
    case LeaveDone => To(s, p, Posting).(mutex := false)
    case Posting => To(s, p, Outside).(placesLeft := s.placesLeft + 1)
  }

  predicate IsRun(s: Sys, acts: seq<nat>)
    requires Shaped(s)
    decreases |acts|
  {
    acts == [] || (Enabled(s, acts[0]) && IsRun(Do(s, acts[0]), acts[1..]))
  }

  function After(s: Sys, acts: seq<nat>): (r: Sys)
    requires Shaped(s) && IsRun(s, acts)
    ensures Shaped(r) && |r.ps| == |s.ps| && r.N == s.N && r.P == s.P
    decreases |acts|
  {
    if acts == [] then s else After(Do(s, acts[0]), acts[1..])
  }

  function Boot(N: nat, P: nat, n: nat): (s: Sys)
    requires P >= 1
    ensures Shaped(s)
  {
    Sys(N, P, N * P, N, false, 0, seq(N * P, i => false), seq(n, i => Passenger(Outside, 0)))
  }

  // -------------------------------------------------------------- the invariant

  /** Has been counted into placesLeft. */
  predicate Holds(x: Passenger) { !x.stage.Outside? }

  /** Has a place on a belt. */
  predicate OnBelt(x: Passenger) {
    x.stage.TakingBelt? || x.stage.EnterDone? || x.stage.Checking? || x.stage.WantOut? || x.stage.Leaving?
  }

  predicate InMutex(x: Passenger) {
    x.stage.Entering? || x.stage.TakingBelt? || x.stage.EnterDone? || x.stage.Leaving? || x.stage.LeaveDone?
  }

  function Tally(ps: seq<Passenger>, f: Passenger -> bool): (n: nat) {
    if ps == [] then 0 else (if f(ps[0]) then 1 else 0) + Tally(ps[1..], f)
  }

  function Occupied(belts: seq<bool>): (n: nat) {
    if belts == [] then 0 else (if belts[0] then 1 else 0) + Occupied(belts[1..])
  }

  lemma {:induction false} TallyAfter(ps: seq<Passenger>, p: nat, x: Passenger, f: Passenger -> bool)
    requires p < |ps|
    ensures Tally(ps[p := x], f) == Tally(ps, f) - (if f(ps[p]) then 1 else 0) + (if f(x) then 1 else 0)
  {
    if p == 0 {
      assert ps[0 := x][1..] == ps[1..];
    } else {
      TallyAfter(ps[1..], p - 1, x, f);
      assert ps[p := x][1..] == ps[1..][p - 1 := x];
    }
  }

  lemma {:induction false} OccupiedAfter(belts: seq<bool>, i: nat, b: bool)
    requires i < |belts|
    ensures Occupied(belts[i := b]) == Occupied(belts) - (if belts[i] then 1 else 0) + (if b then 1 else 0)
  {
    if i == 0 {
      assert belts[0 := b][1..] == belts[1..];
    } else {
      OccupiedAfter(belts[1..], i - 1, b);
      assert belts[i := b][1..] == belts[1..][i - 1 := b];
    }
  }

  lemma {:induction false} AllOccupied(belts: seq<bool>)
    ensures Occupied(belts) <= |belts|
    ensures (forall j :: 0 <= j < |belts| ==> belts[j]) ==> Occupied(belts) == |belts|
  {
    if belts != [] {
      AllOccupied(belts[1..]);
      assert forall j :: 0 <= j < |belts| - 1 ==> belts[1..][j] == belts[j + 1];
    }
  }

  lemma {:induction false} TallyMore(ps: seq<Passenger>, p: nat)
    ensures Tally(ps, OnBelt) <= Tally(ps, Holds)
    ensures p < |ps| && Holds(ps[p]) && !OnBelt(ps[p]) ==> Tally(ps, OnBelt) < Tally(ps, Holds)
    ensures p < |ps| && OnBelt(ps[p]) ==> Tally(ps, OnBelt) >= 1
  {
    if ps != [] {
      TallyMore(ps[1..], if p > 0 then p - 1 else 0);
      if p > 0 && p < |ps| { assert ps[1..][p - 1] == ps[p]; }
    }
  }

  /** A belt is full per P passengers: sec_check_empty is what is left of N. A passenger who has been
      counted but not yet tested is the one exception, inside the mutex. */
  ghost predicate BeltsExact(s: Sys)
    requires Shaped(s)
  {
    if exists p :: 0 <= p < |s.ps| && s.ps[p].stage.TakingBelt?
    then s.count >= 1 && s.beltsLeft == s.N - (s.count - 1) / s.P
    else s.beltsLeft == s.N - s.count / s.P
  }

  ghost predicate Inv(s: Sys)
    requires Shaped(s)
  {
    && s.placesLeft >= 0 && s.placesLeft + Tally(s.ps, Holds) == s.N * s.P
    && s.count == Tally(s.ps, OnBelt) == Occupied(s.belts)
    && (forall p :: 0 <= p < |s.ps| && OnBelt(s.ps[p]) ==> s.ps[p].place < |s.belts| && s.belts[s.ps[p].place])
    && (forall p, q :: 0 <= p < q < |s.ps| && OnBelt(s.ps[p]) && OnBelt(s.ps[q]) ==> s.ps[p].place != s.ps[q].place)
    && (forall p :: 0 <= p < |s.ps| && InMutex(s.ps[p]) ==> s.mutex)
    && (forall p, q :: 0 <= p < q < |s.ps| ==> !(InMutex(s.ps[p]) && InMutex(s.ps[q])))
    && BeltsExact(s)
  }

  lemma Monotone(P: nat, a: nat, b: nat)
    ensures a <= b ==> P * a <= P * b
  {}

  lemma DivOf(P: nat, q: nat, r: nat)
    requires r < P
    ensures (P * q + r) / P == q && (P * q + r) % P == r
  {
    var n := P * q + r;
    assert n == P * (n / P) + n % P;
    Monotone(P, q + 1, n / P);
    Monotone(P, n / P + 1, q);
  }

  lemma DivUp(c: nat, P: nat)
    requires P >= 1
    ensures (c + 1) / P == c / P + if (c + 1) % P == 0 then 1 else 0
  {
    var q, r := c / P, c % P;
    assert c == P * q + r;
    if r + 1 == P {
      assert c + 1 == P * (q + 1);
      DivOf(P, q + 1, 0);
    } else {
      assert c + 1 == P * q + (r + 1);
      DivOf(P, q, r + 1);
    }
  }

  lemma DivAtMost(c: nat, N: nat, P: nat)
    requires P >= 1 && c <= N * P
    ensures c / P <= N
  {}

  ghost predicate SameOthers(s: Sys, r: Sys, p: nat) {
    p < |s.ps| == |r.ps| && forall q :: 0 <= q < |s.ps| && q != p ==> r.ps[q] == s.ps[q]
  }

  lemma Tallies(s: Sys, r: Sys, p: nat)
    requires SameOthers(s, r, p)
    ensures Tally(r.ps, Holds) == Tally(s.ps, Holds) - (if Holds(s.ps[p]) then 1 else 0)
      + (if Holds(r.ps[p]) then 1 else 0)
    ensures Tally(r.ps, OnBelt) == Tally(s.ps, OnBelt) - (if OnBelt(s.ps[p]) then 1 else 0)
      + (if OnBelt(r.ps[p]) then 1 else 0)
  {
    assert r.ps == s.ps[p := r.ps[p]];
    TallyAfter(s.ps, p, r.ps[p], Holds);
    TallyAfter(s.ps, p, r.ps[p], OnBelt);
  }

  lemma BeltsExactKept(s: Sys, r: Sys, p: nat)
    requires Shaped(s) && Shaped(r) && BeltsExact(s) && SameOthers(s, r, p)
    requires s.ps[p].stage.TakingBelt? == r.ps[p].stage.TakingBelt?
    requires r.N == s.N && r.P == s.P && r.count == s.count && r.beltsLeft == s.beltsLeft
    ensures BeltsExact(r)
  {}

  /** The service itself. */
  lemma WalkKeepsInv(s: Sys, p: nat)
    requires Shaped(s) && Inv(s) && Enabled(s, p)
    requires s.ps[p].stage.Checking?
    ensures Inv(Do(s, p))
  {
    hide BeltsExact, Tally, Occupied, FirstFree;
    var r := Do(s, p);
    assert SameOthers(s, r, p);
    Tallies(s, r, p);
    BeltsExactKept(s, r, p);
  }

  /** The two operations on belt_empty. */
  lemma PlaceKeepsInv(s: Sys, p: nat)
    requires Shaped(s) && Inv(s) && Enabled(s, p)
    requires s.ps[p].stage.Outside? || s.ps[p].stage.Posting?
    ensures Inv(Do(s, p))
  {
    hide BeltsExact, Tally, Occupied, FirstFree;
    var r := Do(s, p);
    assert SameOthers(s, r, p);
    Tallies(s, r, p);
    BeltsExactKept(s, r, p);
  }

  /** Locking the mutex. */
  lemma LockKeepsInv(s: Sys, p: nat)
    requires Shaped(s) && Inv(s) && Enabled(s, p)
    requires s.ps[p].stage.HasPlace? || s.ps[p].stage.WantOut?
    ensures Inv(Do(s, p))
  {
    hide BeltsExact, Tally, Occupied, FirstFree;
    var r := Do(s, p);
    assert SameOthers(s, r, p);
    Tallies(s, r, p);
    BeltsExactKept(s, r, p);
  }

  /** Unlocking it. */
  lemma UnlockKeepsInv(s: Sys, p: nat)
    requires Shaped(s) && Inv(s) && Enabled(s, p)
    requires s.ps[p].stage.EnterDone? || s.ps[p].stage.LeaveDone?
    ensures Inv(Do(s, p))
  {
    hide BeltsExact, Tally, Occupied, FirstFree;
    var r := Do(s, p);
    assert SameOthers(s, r, p);
    Tallies(s, r, p);
    BeltsExactKept(s, r, p);
  }

  /** Being counted: the place found is free, so nobody else has it. */
  lemma EnterKeepsInv(s: Sys, p: nat)
    requires Shaped(s) && Inv(s) && Enabled(s, p) && s.ps[p].stage.Entering?
    ensures Inv(Do(s, p))
  {
    var r := Do(s, p);
    assert SameOthers(s, r, p);
    Tallies(s, r, p);
    OccupiedAfter(s.belts, FirstFree(s.belts).value, true);
    assert r.ps[p].stage.TakingBelt?;
  }

  /** The test for a full belt. */
  lemma TestKeepsInv(s: Sys, p: nat)
    requires Shaped(s) && Inv(s) && Enabled(s, p) && s.ps[p].stage.TakingBelt?
    ensures Inv(Do(s, p))
  {
    var r := Do(s, p);
    assert SameOthers(s, r, p);
    Tallies(s, r, p);
    DivUp(s.count - 1, s.P);
    assert forall q :: 0 <= q < |s.ps| ==> !r.ps[q].stage.TakingBelt?;
  }

  /** Giving the place back. */
  lemma LeaveKeepsInv(s: Sys, p: nat)
    requires Shaped(s) && Inv(s) && Enabled(s, p) && s.ps[p].stage.Leaving?
    ensures Inv(Do(s, p))
  {
    var r := Do(s, p);
    assert SameOthers(s, r, p);
    Tallies(s, r, p);
    TallyMore(s.ps, p);
    OccupiedAfter(s.belts, s.ps[p].place, false);
    DivUp(s.count - 1, s.P);
    assert forall q :: 0 <= q < |s.ps| ==> !s.ps[q].stage.TakingBelt? && !r.ps[q].stage.TakingBelt?;
  }

  lemma StepKeepsInv(s: Sys, p: nat)
    requires Shaped(s) && Inv(s) && Enabled(s, p)
    ensures Inv(Do(s, p))
  {
    hide Inv, Do;
    match s.ps[p].stage
    case Entering => EnterKeepsInv(s, p);
    case TakingBelt => TestKeepsInv(s, p);
    case Leaving => LeaveKeepsInv(s, p);
    case HasPlace => LockKeepsInv(s, p);
    case WantOut => LockKeepsInv(s, p);
    case EnterDone => UnlockKeepsInv(s, p);
    case LeaveDone => UnlockKeepsInv(s, p);
    case Checking => WalkKeepsInv(s, p);
    case _ => PlaceKeepsInv(s, p);
  }

  lemma {:induction false} RunKeepsInv(s: Sys, acts: seq<nat>)
    requires Shaped(s) && Inv(s) && IsRun(s, acts)
    ensures Inv(After(s, acts))
    decreases |acts|
  {
    if acts != [] {
      StepKeepsInv(s, acts[0]);
      RunKeepsInv(Do(s, acts[0]), acts[1..]);
    }
  }

  lemma {:induction false} NobodyThere(N: nat, P: nat, n: nat)
    requires P >= 1
    ensures Tally(Boot(N, P, n).ps, Holds) == 0 && Tally(Boot(N, P, n).ps, OnBelt) == 0
  {
    if n > 0 {
      NobodyThere(N, P, n - 1);
      assert Boot(N, P, n).ps[1..] == Boot(N, P, n - 1).ps;
    }
  }

  lemma {:induction false} NothingOccupied(k: nat)
    ensures Occupied(seq(k, i => false)) == 0
  {
    if k > 0 {
      NothingOccupied(k - 1);
      assert seq(k, i => false)[1..] == seq(k - 1, i => false);
    }
  }

  lemma BootInv(N: nat, P: nat, n: nat)
    requires P >= 1
    ensures Inv(Boot(N, P, n))
  {
    NobodyThere(N, P, n);
    NothingOccupied(N * P);
    DivOf(P, 0, 0);
  }

  // ------------------------------------------------------------------ what it gives

  /** Whenever the mutex is free, sec_check_empty is N - belts_count / P. */
  lemma BeltsLeftWhenFree(N: nat, P: nat, n: nat, acts: seq<nat>)
    requires P >= 1 && IsRun(Boot(N, P, n), acts)
    ensures var s := After(Boot(N, P, n), acts);
      !s.mutex ==> s.beltsLeft == s.N - s.count / s.P
  {
    BootInv(N, P, n);
    RunKeepsInv(Boot(N, P, n), acts);
    var s := After(Boot(N, P, n), acts);
    assert forall p :: 0 <= p < |s.ps| && s.ps[p].stage.TakingBelt? ==> InMutex(s.ps[p]);
  }

  /** In every reachable state a passenger who has been let in is never stuck inside the mutex: the
      search finds a place, and the sem_wait there finds a belt. */
  lemma NeverStuckInside(N: nat, P: nat, n: nat, acts: seq<nat>, p: nat)
    requires P >= 1 && IsRun(Boot(N, P, n), acts) && p < n
    ensures var s := After(Boot(N, P, n), acts);
      p < |s.ps| && (InMutex(s.ps[p]) ==> Enabled(s, p))
  {
    BootInv(N, P, n);
    RunKeepsInv(Boot(N, P, n), acts);
    var s := After(Boot(N, P, n), acts);
    TallyMore(s.ps, p);
    AllOccupied(s.belts);
    if s.ps[p].stage.TakingBelt? {
      DivUp(s.count - 1, s.P);
      DivAtMost(s.count, s.N, s.P);
    }
  }

  /** A passenger is let in exactly when fewer than N * P are in: belt_empty counts the places left. */
  lemma LetInIff(N: nat, P: nat, n: nat, acts: seq<nat>, p: nat)
    requires P >= 1 && IsRun(Boot(N, P, n), acts) && p < n
    ensures var s := After(Boot(N, P, n), acts);
      p < |s.ps| && (s.ps[p].stage.Outside? ==> (Enabled(s, p) <==> Tally(s.ps, Holds) < N * P))
  {
    BootInv(N, P, n);
    RunKeepsInv(Boot(N, P, n), acts);
  }

  /** Whoever has locked the mutex is still inside it. */
  ghost predicate MutexHeld(s: Sys) { s.mutex ==> exists p :: 0 <= p < |s.ps| && InMutex(s.ps[p]) }

  lemma StepKeepsHeld(s: Sys, p: nat)
    requires Shaped(s) && Enabled(s, p) && MutexHeld(s)
    ensures MutexHeld(Do(s, p))
  {
    var r := Do(s, p);
    if r.mutex && !InMutex(r.ps[p]) {
      var q :| 0 <= q < |s.ps| && InMutex(s.ps[q]);
      assert InMutex(r.ps[q]);
    }
  }

  lemma {:induction false} RunKeepsHeld(s: Sys, acts: seq<nat>)
    requires Shaped(s) && MutexHeld(s) && IsRun(s, acts)
    ensures MutexHeld(After(s, acts))
    decreases |acts|
  {
    if acts == [] {
    } else {
      StepKeepsHeld(s, acts[0]);
      RunKeepsHeld(Do(s, acts[0]), acts[1..]);
    }
  }

  lemma {:induction false} NobodyIn(ps: seq<Passenger>)
    requires forall p :: 0 <= p < |ps| ==> ps[p].stage.Outside?
    ensures Tally(ps, Holds) == 0
  {
    if ps != [] { NobodyIn(ps[1..]); }
  }

  /** Somebody can take a step, and somebody who has been let in unless nobody has. */
  ghost predicate CanMove(s: Sys)
    requires Shaped(s)
  {
    if exists q :: 0 <= q < |s.ps| && !s.ps[q].stage.Outside?
    then exists p :: 0 <= p < |s.ps| && !s.ps[p].stage.Outside? && Enabled(s, p)
    else exists p :: 0 <= p < |s.ps| && Enabled(s, p)
  }

  lemma EmptyCanMove(s: Sys)
    requires Shaped(s) && Inv(s) && s.N >= 1 && |s.ps| >= 1
    requires forall q :: 0 <= q < |s.ps| ==> s.ps[q].stage.Outside?
    ensures CanMove(s)
  {
    NobodyIn(s.ps);
    Monotone(s.P, 1, s.N);
    assert Enabled(s, 0);
  }

  lemma BootSize(N: nat, P: nat, n: nat)
    requires P >= 1
    ensures |Boot(N, P, n).ps| == n
  {}

  /** No deadlock: with at least one belt, in every reachable state. */
  lemma NeverStuck(N: nat, P: nat, n: nat, acts: seq<nat>)
    requires P >= 1 && N >= 1 && n >= 1 && IsRun(Boot(N, P, n), acts)
    ensures CanMove(After(Boot(N, P, n), acts))
  {
    BootInv(N, P, n);
    RunKeepsInv(Boot(N, P, n), acts);
    RunKeepsHeld(Boot(N, P, n), acts);
    var s := After(Boot(N, P, n), acts);
    hide Inv, Boot, After, IsRun, Tally, Occupied;
    if s.mutex {
      var p :| 0 <= p < |s.ps| && InMutex(s.ps[p]);
      BootSize(N, P, n);
      NeverStuckInside(N, P, n, acts, p);
      assert Enabled(s, p);
    } else if p :| 0 <= p < |s.ps| && !s.ps[p].stage.Outside? {
      assert Enabled(s, p);
    } else {
      BootSize(N, P, n);
      EmptyCanMove(s);
    }
  }

  lemma BeltOf(x: nat, N: nat, P: nat)
    requires P >= 1 && x < N * P
    ensures x / P < N
  {}

  lemma SamePlace(x: nat, y: nat, P: nat)
    requires P >= 1 && x / P == y / P && x % P == y % P
    ensures x == y
  {}

  lemma PlacesApart(s: Sys, p: nat, q: nat)
    requires Shaped(s) && Inv(s) && p < |s.ps| && q < |s.ps| && p != q
    ensures OnBelt(s.ps[p]) ==> s.ps[p].place / s.P < s.N
    ensures OnBelt(s.ps[p]) && OnBelt(s.ps[q]) && s.ps[p].place / s.P == s.ps[q].place / s.P ==>
              s.ps[p].place % s.P != s.ps[q].place % s.P
  {
    if OnBelt(s.ps[p]) {
      BeltOf(s.ps[p].place, s.N, s.P);
      if OnBelt(s.ps[q]) {
        assert s.ps[p].place != s.ps[q].place by { assert p < q || q < p; }
        if s.ps[p].place / s.P == s.ps[q].place / s.P && s.ps[p].place % s.P == s.ps[q].place % s.P {
          SamePlace(s.ps[p].place, s.ps[q].place, s.P);
        }
      }
    }
  }

  /** Two passengers never have the same place, so no belt ever carries more than P of them: those on
      belt b are told apart by their places among its P. */
  lemma PlacesAreExclusive(N: nat, P: nat, n: nat, acts: seq<nat>, p: nat, q: nat)
    requires P >= 1 && IsRun(Boot(N, P, n), acts) && p < n && q < n && p != q
    ensures var s := After(Boot(N, P, n), acts);
      && p < |s.ps| && q < |s.ps|
      && (OnBelt(s.ps[p]) ==> s.ps[p].place / s.P < s.N)
      && (OnBelt(s.ps[p]) && OnBelt(s.ps[q]) && s.ps[p].place / s.P == s.ps[q].place / s.P ==>
            s.ps[p].place % s.P != s.ps[q].place % s.P)
  {
    BootInv(N, P, n);
    RunKeepsInv(Boot(N, P, n), acts);
    var s := After(Boot(N, P, n), acts);
    hide Inv, IsRun, OnBelt;
    PlacesApart(s, p, q);
  }
}
