/** The lottery in the scheduler of proc.c: one scan adds up the tickets of the runnable processes, a
    draw in 0..total follows, and a second scan stops at the first runnable process at which the
    running sum reaches the draw. The table does not change between the scans. */
module Lottery {
  import opened Wrappers

  datatype Proc = Proc(runnable: bool, tickets: nat)

  /** Tickets of the runnable processes in the first n slots. */
  function Sum(table: seq<Proc>, n: nat): (t: nat)
    requires n <= |table|
  {
    if n == 0 then 0 else Sum(table, n - 1) + if table[n - 1].runnable then table[n - 1].tickets else 0
  }

  lemma {:induction false} SumGrows(table: seq<Proc>, m: nat, n: nat)
    requires m <= n <= |table|
    ensures Sum(table, m) <= Sum(table, n)
    decreases n
  {
    if m < n { SumGrows(table, m, n - 1); }
  }

  /** The first scan. */
  method TotalTickets(table: seq<Proc>) returns (total: nat)
    ensures total == Sum(table, |table|)
  {
    total := 0;
    for p := 0 to |table|
      invariant total == Sum(table, p)
    {
      if table[p].runnable { total := total + table[p].tickets; }
    }
  }

  ghost predicate FirstRunnable(table: seq<Proc>, i: nat) {
    i < |table| && table[i].runnable && forall j :: 0 <= j < i ==> !table[j].runnable
  }

  /** Process i wins the draw w: w falls among its own tickets, which come after those of the slots
      before it; a draw of 0 goes to the first runnable slot. */
  ghost predicate Wins(table: seq<Proc>, i: nat, w: nat) {
    && i < |table| && table[i].runnable
    && w <= Sum(table, i) + table[i].tickets
    && (Sum(table, i) < w || FirstRunnable(table, i))
  }

  /** The first runnable slot whose running sum reaches the draw is the only winner. */
  lemma WinnerIsFirst(table: seq<Proc>, p: nat, w: nat)
    requires p < |table| && table[p].runnable && Sum(table, p) + table[p].tickets >= w
    requires forall i :: 0 <= i < p && table[i].runnable ==> Sum(table, i) + table[i].tickets < w
    requires Sum(table, p) < w || forall i :: 0 <= i < p ==> !table[i].runnable
    ensures forall i: nat :: Wins(table, i, w) <==> i == p
  {
    forall i: nat | Wins(table, i, w) ensures i == p {
      if i > p {
        SumGrows(table, p + 1, i);
      }
    }
  }

  /** The second scan: it stops at exactly the process that wins, and at none only if none is
      runnable. */
  method PickWinner(table: seq<Proc>, w: nat) returns (r: Option<nat>)
    requires w <= Sum(table, |table|)
    ensures r.None? <==> forall i :: 0 <= i < |table| ==> !table[i].runnable
    ensures r.Some? ==> forall i: nat :: Wins(table, i, w) <==> i == r.value
  {
    var count := 0;
    for p := 0 to |table|
      invariant count == Sum(table, p)
      invariant forall i :: 0 <= i < p && table[i].runnable ==> Sum(table, i) + table[i].tickets < w
      invariant count < w || forall i :: 0 <= i < p ==> !table[i].runnable
    {
      if table[p].runnable {
        count := count + table[p].tickets;
        if count >= w {
          WinnerIsFirst(table, p, w);
          return Some(p);
        }
      }
    }
    r := None;
  }

  /** The draws 0..total that slot i wins. */
  ghost function WinningDraws(table: seq<Proc>, i: nat, n: nat): (s: set<nat>)
    ensures forall w: nat :: w in s <==> w < n && Wins(table, i, w)
  {
    if n == 0 then {} else WinningDraws(table, i, n - 1) + if Wins(table, i, n - 1) then {n - 1} else {}
  }

  lemma {:induction false} NothingBefore(table: seq<Proc>, i: nat, n: nat)
    requires FirstRunnable(table, i) && n <= i
    ensures Sum(table, n) == 0
  {
    if n > 0 { NothingBefore(table, i, n - 1); }
  }

  /** Counted among the first n draws: those after the slots before i, plus draw 0 if i is first. */
  lemma {:induction false} CountDraws(table: seq<Proc>, i: nat, n: nat)
    requires i < |table| && table[i].runnable
    ensures var b, t := Sum(table, i), table[i].tickets;
      |WinningDraws(table, i, n)| ==
        (if n <= b + 1 then 0 else if n <= b + t + 1 then n - b - 1 else t)
        + (if FirstRunnable(table, i) && n > 0 then 1 else 0)
  {
    if FirstRunnable(table, i) { NothingBefore(table, i, i); }
    if n > 0 { CountDraws(table, i, n - 1); }
  }

  /** Lottery shares: of the total + 1 equally likely draws a runnable process wins as many as it has
      tickets, and the first runnable one wins one more. */
  lemma SharesAreTickets(table: seq<Proc>, i: nat)
    requires i < |table| && table[i].runnable
    ensures |WinningDraws(table, i, Sum(table, |table|) + 1)|
         == table[i].tickets + if FirstRunnable(table, i) then 1 else 0
  {
    var b, t, n := Sum(table, i), table[i].tickets, Sum(table, |table|) + 1;
    SumGrows(table, i + 1, |table|);
    assert Sum(table, i + 1) == b + t < n;
    hide *;
    CountDraws(table, i, n);
    assert (if n <= b + 1 then 0 else if n <= b + t + 1 then n - b - 1 else t) == t;
  }
}
