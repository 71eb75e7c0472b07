/** The gate in front of the VIP channel of offline.cpp: left-to-right passengers count themselves into
    VIP_LR_waiting and the first of them locks VIP_priority_mutex, through which every right-to-left
    passenger has to pass. Its steps around those of VipChannel, which it can only delay; and the
    two ways in which it all comes to a halt. */
module VipGate {
  import opened VipChannel

  /** Where a passenger is besides his stage in the channel. He is before it at stage WantIn, and
      between locking VIP_LR_mutex and being counted at stage Counting. */
  datatype Gate =
    | Open           // not at the gate
    | WantGate       // LR: about to lock VIP_waiting_mutex
    | Raising        // [waiting] VIP_LR_waiting++
    | TestRaised     // [waiting] if VIP_LR_waiting == 1
    | WantPriority   // [waiting] about to lock VIP_priority_mutex
    | LeaveGate      // [waiting] about to unlock VIP_waiting_mutex
    | Lowering       // [LR] VIP_LR_waiting--
    | TestLowered    // [LR] if VIP_LR_waiting == 0, VIP_priority_mutex is unlocked
    | WantPass       // RL: about to lock VIP_priority_mutex
    | LeavePass      // RL: about to unlock it again

  datatype Full = Full(core: Sys, gate: seq<Gate>, waiting: int, waitingMutex: bool, priority: bool)

  predicate Formed(f: Full) { Shaped(f.core) && |f.gate| == |f.core.ps| }

  predicate Able(f: Full, a: Action)
    requires Formed(f)
  {
    && a.p < |f.gate|
    && match f.gate[a.p]
       case Open => Enabled(f.core, a)
       case WantGate => !f.waitingMutex
       case WantPriority => !f.priority
       case WantPass => !f.priority
       case _ => true
  }

  /** Where a step in the channel leads at the gate: arriving, and locking VIP_LR_mutex. */
  function GateAfter(s: Sys, a: Action): (g: Gate)
    requires a.p < |s.ps|
  {
    match s.ps[a.p].stage
    case Outside => if a.dir == 0 then WantGate else WantPass
    case WantIn => if s.ps[a.p].dir == 0 then Lowering else Open
    case _ => Open
  }

  function Go(f: Full, a: Action): (r: Full)
    requires Formed(f) && Able(f, a)
    ensures Formed(r) && |r.gate| == |f.gate|
  {
    var p := a.p;
    match f.gate[p]
    case Open => f.(core := Do(f.core, a), gate := f.gate[p := GateAfter(f.core, a)])
    case WantGate => f.(gate := f.gate[p := Raising], waitingMutex := true)
    case Raising => f.(gate := f.gate[p := TestRaised], waiting := f.waiting + 1)
    case TestRaised => f.(gate := f.gate[p := if f.waiting == 1 then WantPriority else LeaveGate])
    case WantPriority => f.(gate := f.gate[p := LeaveGate], priority := true)
    case LeaveGate => f.(gate := f.gate[p := Open], waitingMutex := false)
    case Lowering => f.(gate := f.gate[p := TestLowered], waiting := f.waiting - 1)
    case TestLowered => f.(gate := f.gate[p := Open], priority := f.priority && f.waiting != 0)
    case WantPass => f.(gate := f.gate[p := LeavePass], priority := true)
    case LeavePass => f.(gate := f.gate[p := Open], priority := false)
  }

  predicate Runs(f: Full, acts: seq<Action>)
    requires Formed(f)
    decreases |acts|
  {
    acts == [] || (Able(f, acts[0]) && Runs(Go(f, acts[0]), acts[1..]))
  }

  function End(f: Full, acts: seq<Action>): (r: Full)
    requires Formed(f) && Runs(f, acts)
    ensures Formed(r) && |r.gate| == |f.gate|
    decreases |acts|
  {
    if acts == [] then f else End(Go(f, acts[0]), acts[1..])
  }

  function Start(n: nat): (f: Full)
    ensures Formed(f)
  {
    Full(Boot(n), seq(n, i => Open), 0, false, false)
  }

  // ---------------------------------------------------------------- refinement

  /** The steps of a run that are steps of the channel. */
  function Channel(f: Full, acts: seq<Action>): (r: seq<Action>)
    requires Formed(f) && Runs(f, acts)
    decreases |acts|
  {
    if acts == [] then []
    else (if f.gate[acts[0].p].Open? then [acts[0]] else []) + Channel(Go(f, acts[0]), acts[1..])
  }

  /** Every run with the gate is a run of the channel when the gate's own steps are left out. */
  lemma {:induction false} GateRefines(f: Full, acts: seq<Action>)
    requires Formed(f) && Runs(f, acts)
    ensures IsRun(f.core, Channel(f, acts)) && After(f.core, Channel(f, acts)) == End(f, acts).core
    decreases |acts|
  {
    if acts == [] {
    } else {
      var g, rest := Go(f, acts[0]), Channel(Go(f, acts[0]), acts[1..]);
      GateRefines(g, acts[1..]);
      if f.gate[acts[0].p].Open? {
        var cs := [acts[0]] + rest;
        assert cs[0] == acts[0] && cs[1..] == rest;
      } else {
        assert [] + rest == rest;
      }
    }
  }

  /** So with the gate, too, nobody crosses while somebody crosses the other way. */
  lemma GatedDirectionsExclude(n: nat, acts: seq<Action>, p: nat, q: nat)
    requires Runs(Start(n), acts) && p < n && q < n
    ensures var s := End(Start(n), acts).core;
      p < |s.ps| && q < |s.ps| && (s.ps[p].stage.Crossing? && s.ps[q].stage.Crossing? ==> s.ps[p].dir == s.ps[q].dir)
  {
    GateRefines(Start(n), acts);
    DirectionsExclude(n, Channel(Start(n), acts), p, q);
  }

  lemma GatedInv(n: nat, acts: seq<Action>)
    requires Runs(Start(n), acts)
    ensures Inv(End(Start(n), acts).core)
  {
    GateRefines(Start(n), acts);
    RunsKeepInv(n, Channel(Start(n), acts));
  }

  // ------------------------------------------------------------------ the two halts

  /** From there on nobody of either direction crosses, gate or no gate. */
  lemma OpposedForGood(n: nat, acts: seq<Action>, p: nat, q: nat, more: seq<Action>)
    requires Runs(Start(n), acts) && Opposed(End(Start(n), acts).core, p, q)
    requires Runs(End(Start(n), acts), more)
    ensures var s := End(End(Start(n), acts), more).core;
      Opposed(s, p, q) && forall x :: 0 <= x < |s.ps| ==> !s.ps[x].stage.Crossing?
  {
    var f := End(Start(n), acts);
    GatedInv(n, acts);
    GateRefines(f, more);
    OpposedForever(f.core, p, q, Channel(f, more));
  }

  /** Left-to-right passenger b waits for the priority mutex inside the waiting mutex, and nobody is left
      who would lower VIP_LR_waiting and unlock the priority mutex. */
  ghost predicate Shut(f: Full, b: nat)
    requires Formed(f)
  {
    && b < |f.gate| && f.gate[b].WantPriority? && f.waitingMutex && f.priority
    && forall x :: 0 <= x < |f.gate| && x != b ==>
         || f.gate[x].WantGate? || f.gate[x].WantPass?
         || (f.gate[x].Open? && (f.core.ps[x].dir == 0 ==> !f.core.ps[x].stage.WantIn?))
  }

  /** He is at the gate, or has not come yet. */
  predicate KeptOut(f: Full, x: nat)
    requires Formed(f) && x < |f.gate|
  {
    !f.gate[x].Open? || f.core.ps[x].stage.Outside?
  }

  lemma ShutStays(f: Full, b: nat, a: Action)
    requires Formed(f) && Shut(f, b) && Able(f, a)
    ensures Shut(Go(f, a), b)
    ensures forall x :: 0 <= x < |f.gate| && KeptOut(f, x) ==> KeptOut(Go(f, a), x)
  {
    assert f.gate[a.p].Open?;
  }

  /** The gate stays shut: who has not got through it by then, of either direction, never will. */
  lemma {:induction false} ShutForGood(f: Full, b: nat, acts: seq<Action>)
    requires Formed(f) && Shut(f, b) && Runs(f, acts)
    ensures Shut(End(f, acts), b)
    ensures forall x :: 0 <= x < |f.gate| && KeptOut(f, x) ==> KeptOut(End(f, acts), x)
    decreases |acts|
  {
    if acts == [] {
    } else {
      ShutStays(f, b, acts[0]);
      ShutForGood(Go(f, acts[0]), b, acts[1..]);
    }
  }

  // ------------------------------------------------------- runs that get there

  ghost predicate Leads(acts: seq<Action>, f: Full) { Runs(Start(2), acts) && End(Start(2), acts) == f }

  lemma {:induction false} RunOn(f: Full, acts: seq<Action>, a: Action)
    requires Formed(f) && Runs(f, acts) && Able(End(f, acts), a)
    ensures Runs(f, acts + [a]) && End(f, acts + [a]) == Go(End(f, acts), a)
    decreases |acts|
  {
    if acts == [] {
      assert [] + [a] == [a] && [a][1..] == [];
    } else {
      assert (acts + [a])[0] == acts[0] && (acts + [a])[1..] == acts[1..] + [a];
      RunOn(Go(f, acts[0]), acts[1..], a);
    }
  }

  /** Two passengers, each with his way, his stage and his place at the gate. */
  function Two(d0: Dir, s0: Stage, g0: Gate, d1: Dir, s1: Stage, g1: Gate, mutex: seq<bool>, count: seq<int>,
               waiting: int, waitingMutex: bool, priority: bool): (f: Full)
    requires |mutex| == 2 && |count| == 2
    ensures Formed(f)
  {
    Full(Sys(mutex, count, [Passenger(d0, s0), Passenger(d1, s1)]), [g0, g1], waiting, waitingMutex, priority)
  }

  /** Equal, item by item. */
  predicate Alike(f: Full, g: Full) {
    && |f.gate| == |g.gate| == 2 && |f.core.ps| == |g.core.ps| == 2 && Shaped(f.core) && Shaped(g.core)
    && f.gate[0] == g.gate[0] && f.gate[1] == g.gate[1]
    && f.core.ps[0] == g.core.ps[0] && f.core.ps[1] == g.core.ps[1]
    && f.core.mutex[0] == g.core.mutex[0] && f.core.mutex[1] == g.core.mutex[1]
    && f.core.count[0] == g.core.count[0] && f.core.count[1] == g.core.count[1]
    && f.waiting == g.waiting && f.waitingMutex == g.waitingMutex && f.priority == g.priority
  }

  lemma AlikeIsEqual(f: Full, g: Full)
    requires Alike(f, g)
    ensures f == g
  {
    assert f.gate == g.gate && f.core.ps == g.core.ps && f.core.mutex == g.core.mutex && f.core.count == g.core.count;
  }

  lemma Next(acts: seq<Action>, f: Full, a: Action, g: Full) returns (more: seq<Action>)
    requires Formed(f) && Leads(acts, f) && Able(f, a) && Alike(Go(f, a), g)
    ensures more == acts + [a] && Leads(more, g)
  {
    RunOn(Start(2), acts, a);
    AlikeIsEqual(Go(f, a), g);
    more := acts + [a];
  }

  lemma Begins()
    ensures Leads([], Two(0, Outside, Open, 0, Outside, Open, [false, false], [0, 0], 0, false, false))
  {
    AlikeIsEqual(Start(2), Two(0, Outside, Open, 0, Outside, Open, [false, false], [0, 0], 0, false, false));
  }

  /** Passenger 1 passes the gate from right to left while nobody waits on the other side. */
  lemma FirstPasses() returns (acts: seq<Action>)
    ensures Leads(acts, Two(0, Outside, Open, 1, WantIn, Open, [false, false], [0, 0], 0, false, false))
  {
    hide Leads;
    Begins();
    var f0 := Two(0, Outside, Open, 0, Outside, Open, [false, false], [0, 0], 0, false, false);
    var f1 := Two(0, Outside, Open, 1, WantIn, WantPass, [false, false], [0, 0], 0, false, false);
    var f2 := Two(0, Outside, Open, 1, WantIn, LeavePass, [false, false], [0, 0], 0, false, true);
    acts := Next([], f0, Action(1, 1), f1);
    acts := Next(acts, f1, Action(1, 1), f2);
    var f3 := Two(0, Outside, Open, 1, WantIn, Open, [false, false], [0, 0], 0, false, false);
    acts := Next(acts, f2, Action(1, 1), f3);
  }

  /** Passenger 0 goes through the gate, the first to wait. */
  lemma SecondPasses(d: Dir, s: Stage) returns (acts: seq<Action>)
    requires (d == 1 && s.WantIn?) || (d == 0 && s.Outside?)
    ensures Leads(acts, Two(0, WantIn, Open, d, s, Open, [false, false], [0, 0], 1, false, true))
  {
    hide Leads;
    if d == 1 { acts := FirstPasses(); } else { Begins(); acts := []; }
    var f0 := Two(0, Outside, Open, d, s, Open, [false, false], [0, 0], 0, false, false);
    var f1 := Two(0, WantIn, WantGate, d, s, Open, [false, false], [0, 0], 0, false, false);
    var f2 := Two(0, WantIn, Raising, d, s, Open, [false, false], [0, 0], 0, true, false);
    var f3 := Two(0, WantIn, TestRaised, d, s, Open, [false, false], [0, 0], 1, true, false);
    var f4 := Two(0, WantIn, WantPriority, d, s, Open, [false, false], [0, 0], 1, true, false);
    var f5 := Two(0, WantIn, LeaveGate, d, s, Open, [false, false], [0, 0], 1, true, true);
    acts := Next(acts, f0, Action(0, 0), f1);
    acts := Next(acts, f1, Action(0, 0), f2);
    acts := Next(acts, f2, Action(0, 0), f3);
    acts := Next(acts, f3, Action(0, 0), f4);
    acts := Next(acts, f4, Action(0, 0), f5);
    acts := Next(acts, f5, Action(0, 0), Two(0, WantIn, Open, d, s, Open, [false, false], [0, 0], 1, false, true));
  }

  lemma LeadsTo(acts: seq<Action>, f: Full)
    requires Leads(acts, f)
    ensures Runs(Start(2), acts) && End(Start(2), acts) == f
  {}

  /** Passenger 0 is inside, about to be counted, and the gate is open again. */
  lemma GateOpens() returns (acts: seq<Action>)
    ensures Leads(acts, Two(0, Counting, Open, 1, WantIn, Open, [true, false], [0, 0], 0, false, false))
  {
    acts := SecondPasses(1, WantIn);
    hide Leads;
    var f0 := Two(0, WantIn, Open, 1, WantIn, Open, [false, false], [0, 0], 1, false, true);
    var f1 := Two(0, Counting, Lowering, 1, WantIn, Open, [true, false], [0, 0], 1, false, true);
    var f2 := Two(0, Counting, TestLowered, 1, WantIn, Open, [true, false], [0, 0], 0, false, true);
    var f3 := Two(0, Counting, Open, 1, WantIn, Open, [true, false], [0, 0], 0, false, false);
    acts := Next(acts, f0, Action(0, 0), f1);
    acts := Next(acts, f1, Action(0, 0), f2);
    acts := Next(acts, f2, Action(0, 0), f3);
  }

  /** Two passengers can meet head-on: the gate does not keep the two directions apart, as a passenger
      from right to left who has passed it may still be on his way to the mutex. */
  lemma TwoCanMeet() returns (acts: seq<Action>)
    ensures Runs(Start(2), acts) && Opposed(End(Start(2), acts).core, 0, 1)
  {
    acts := GateOpens();
    hide Leads;
    var f0 := Two(0, Counting, Open, 1, WantIn, Open, [true, false], [0, 0], 0, false, false);
    var f1 := Two(0, WaitOther, Open, 1, WantIn, Open, [true, false], [1, 0], 0, false, false);
    var f2 := Two(0, WaitOther, Open, 1, Counting, Open, [true, true], [1, 0], 0, false, false);
    var f3 := Two(0, WaitOther, Open, 1, WaitOther, Open, [true, true], [1, 1], 0, false, false);
    acts := Next(acts, f0, Action(0, 0), f1);
    acts := Next(acts, f1, Action(1, 0), f2);
    acts := Next(acts, f2, Action(1, 0), f3);
    LeadsTo(acts, f3);
  }

  /** Passenger 0 waits for VIP_LR_mutex; passenger 1 has counted himself in behind him. */
  lemma SecondRaises() returns (acts: seq<Action>)
    ensures Leads(acts, Two(0, WantIn, Open, 0, WantIn, TestRaised, [false, false], [0, 0], 2, true, true))
  {
    acts := SecondPasses(0, Outside);
    hide Leads;
    var f0 := Two(0, WantIn, Open, 0, Outside, Open, [false, false], [0, 0], 1, false, true);
    var f1 := Two(0, WantIn, Open, 0, WantIn, WantGate, [false, false], [0, 0], 1, false, true);
    var f2 := Two(0, WantIn, Open, 0, WantIn, Raising, [false, false], [0, 0], 1, true, true);
    var f3 := Two(0, WantIn, Open, 0, WantIn, TestRaised, [false, false], [0, 0], 2, true, true);
    acts := Next(acts, f0, Action(1, 0), f1);
    acts := Next(acts, f1, Action(1, 0), f2);
    acts := Next(acts, f2, Action(1, 0), f3);
  }

  /** Two of the same direction can shut the gate: VIP_LR_waiting is raised under one mutex and lowered
      under another, so the first can lower it between the second's increment and his test. */
  lemma TwoCanShut() returns (acts: seq<Action>)
    ensures Runs(Start(2), acts) && Shut(End(Start(2), acts), 1)
  {
    acts := SecondRaises();
    hide Leads;
    var f0 := Two(0, WantIn, Open, 0, WantIn, TestRaised, [false, false], [0, 0], 2, true, true);
    var f1 := Two(0, Counting, Lowering, 0, WantIn, TestRaised, [true, false], [0, 0], 2, true, true);
    var f2 := Two(0, Counting, TestLowered, 0, WantIn, TestRaised, [true, false], [0, 0], 1, true, true);
    var f3 := Two(0, Counting, Open, 0, WantIn, TestRaised, [true, false], [0, 0], 1, true, true);
    var f4 := Two(0, Counting, Open, 0, WantIn, WantPriority, [true, false], [0, 0], 1, true, true);
    acts := Next(acts, f0, Action(0, 0), f1);
    acts := Next(acts, f1, Action(0, 0), f2);
    acts := Next(acts, f2, Action(0, 0), f3);
    acts := Next(acts, f3, Action(1, 0), f4);
    LeadsTo(acts, f4);
  }
}
