/** The gate scheduler as a step system, and what every run of it computes. */
module GateSteps {
  import opened Collections
  import opened GateGraph

  /** How a gate ends. An executor may report any of the three. */
  datatype Status = Passed | Failed | Skipped

  datatype GateState = Pending | Running | Settled(status: Status)

  type States = map<string, GateState>

  // ---------------------------------------------------------------- what a run should report

  ghost predicate AllPassed(needs: seq<string>, final: map<string, Status>) {
    forall d :: d in needs ==> d in final && final[d] == Passed
  }

  /** The schedule-free meaning of a gate list: a gate whose needs all passed has its own outcome. */
  ghost predicate Solution(gates: seq<Gate>, execute: Gate -> Status, final: map<string, Status>) {
    && (forall id :: id in final <==> id in ById(gates))
    && (forall g :: g in gates ==>
          && g.id in final
          && final[g.id] == if AllPassed(g.needs, final) then execute(g) else Skipped)
  }

  // ---------------------------------------------------------------- the step system

  datatype Scheduler = Scheduler(states: States, running: seq<Gate>, executed: seq<Gate>)

  datatype Step = Start(gate: Gate) | Settle(gate: Gate) | Skip(gate: Gate)

  predicate DependenciesPassed(g: Gate, states: States) {
    forall d :: d in g.needs ==> d in states && states[d] == Settled(Passed)
  }

  predicate Blocking(d: string, states: States) {
    d in states && (states[d] == Settled(Failed) || states[d] == Settled(Skipped))
  }

  /** The needs of a gate that already failed or were skipped, in declaration order. */
  function FailedDeps(needs: seq<string>, states: States): seq<string> {
    if needs == [] then []
    else
      (if Blocking(needs[0], states) then [needs[0]] else []) + FailedDeps(needs[1..], states)
  }

  predicate Ready(g: Gate, states: States) {
    g.id in states && states[g.id] == Pending && DependenciesPassed(g, states)
  }

  /**
   * Which steps may happen. Any ready gate may start while a worker is free, any running gate may
   * settle, and once nothing runs or can start, any gate with a failed or skipped need is skipped.
   */
  ghost predicate Enabled(gates: seq<Gate>, maxActive: int, s: Scheduler, step: Step) {
    && step.gate in gates
    && match step
       case Start(g) => |s.running| < maxActive && Ready(g, s.states)
       case Settle(g) => g in s.running
       case Skip(g) =>
         && s.running == []
         && (forall h :: h in gates ==> !Ready(h, s.states))
         && g.id in s.states && s.states[g.id] == Pending
         && FailedDeps(g.needs, s.states) != []
  }

  function Without(running: seq<Gate>, g: Gate): seq<Gate>
    requires g in running
  {
    if running[0] == g then running[1..] else [running[0]] + Without(running[1..], g)
  }

  function Take(execute: Gate -> Status, s: Scheduler, step: Step): Scheduler
    requires step.Settle? ==> step.gate in s.running
  {
    match step
    case Start(g) => Scheduler(s.states[g.id := Running], s.running + [g], s.executed + [g])
    case Settle(g) => s.(states := s.states[g.id := Settled(execute(g))], running := Without(s.running, g))
    case Skip(g) => s.(states := s.states[g.id := Settled(Skipped)])
  }

  function Initially(gates: seq<Gate>): States {
    if gates == [] then map[] else Initially(gates[..|gates| - 1])[gates[|gates| - 1].id := Pending]
  }

  /** The states reached by a legal sequence of steps, from the state with every gate pending. */
  ghost predicate Reaches(
    gates: seq<Gate>, maxActive: int, execute: Gate -> Status, steps: seq<Step>, s: Scheduler)
    decreases |steps|
  {
    if steps == [] then
      s == Scheduler(Initially(gates), [], [])
    else
      var last := steps[|steps| - 1];
      exists before ::
        && Reaches(gates, maxActive, execute, steps[..|steps| - 1], before)
        && Enabled(gates, maxActive, before, last)
        && s == Take(execute, before, last)
  }

  ghost predicate Complete(gates: seq<Gate>, s: Scheduler) {
    forall g :: g in gates ==> g.id in s.states && s.states[g.id].Settled?
  }

  // ---------------------------------------------------------------- what every step keeps

  ghost predicate GateInv(execute: Gate -> Status, s: Scheduler, g: Gate) {
    && g.id in s.states
    && (g in s.running <==> s.states[g.id] == Running)
    && (if g in s.executed then
          && DependenciesPassed(g, s.states)
          && (s.states[g.id] == Running || s.states[g.id] == Settled(execute(g)))
        else
          || s.states[g.id] == Pending
          || (s.states[g.id] == Settled(Skipped) && exists d :: d in g.needs && Blocking(d, s.states)))
  }

  ghost predicate Inv(gates: seq<Gate>, maxActive: int, execute: Gate -> Status, s: Scheduler) {
    && (forall id :: id in s.states <==> id in ById(gates))
    && (forall g :: g in gates ==> GateInv(execute, s, g))
    && (forall g :: g in s.running ==> g in gates)
    && (forall g :: g in s.executed ==> g in gates)
    && Distinct(s.running)
    && Distinct(s.executed)
    && |s.running| <= maxActive
  }

  lemma SameIdSameGate(gates: seq<Gate>, g: Gate, h: Gate)
    requires UniqueIds(gates) && g in gates && h in gates && g.id == h.id
    ensures g == h
  {
    var i :| 0 <= i < |gates| && gates[i] == g;
    var j :| 0 <= j < |gates| && gates[j] == h;
  }

  lemma {:induction false} InitiallyPending(gates: seq<Gate>, id: string)
    ensures id in Initially(gates) <==> id in ById(gates)
    ensures id in Initially(gates) ==> Initially(gates)[id] == Pending
  {
    if gates != [] {
      InitiallyPending(gates[..|gates| - 1], id);
    }
  }

  lemma {:induction false} WithoutContents(running: seq<Gate>, g: Gate)
    requires g in running && Distinct(running)
    ensures Distinct(Without(running, g)) && |Without(running, g)| == |running| - 1
    ensures forall h :: h in Without(running, g) <==> h in running && h != g
  {
    var tail := running[1..];
    assert forall h :: h in running <==> h == running[0] || h in tail;
    assert running[0] !in tail;
    if running[0] != g {
      WithoutContents(tail, g);
      var rest := Without(tail, g);
      var all := Without(running, g);
      assert all == [running[0]] + rest;
      forall i, j | 0 <= i < j < |all| ensures all[i] != all[j] {
        assert all[j] == rest[j - 1] && rest[j - 1] in rest;
        assert i > 0 ==> all[i] == rest[i - 1];
      }
    }
  }

  lemma {:induction false} FailedDepsBlock(needs: seq<string>, states: States)
    ensures forall d :: d in FailedDeps(needs, states) <==> d in needs && Blocking(d, states)
  {
    if needs != [] {
      FailedDepsBlock(needs[1..], states);
      assert forall d :: d in needs <==> d == needs[0] || d in needs[1..];
    }
  }

  /** The blocking needs are listed in the order of the needs. */
  lemma {:induction false} FailedDepsAppend(a: seq<string>, b: seq<string>, states: States)
    ensures FailedDeps(a + b, states) == FailedDeps(a, states) + FailedDeps(b, states)
  {
    if a == [] {
      assert a + b == b;
    } else {
      assert (a + b)[1..] == a[1..] + b;
      FailedDepsAppend(a[1..], b, states);
    }
  }

  lemma InitInv(gates: seq<Gate>, maxActive: int, execute: Gate -> Status)
    requires maxActive >= 0
    ensures Inv(gates, maxActive, execute, Scheduler(Initially(gates), [], []))
  {
    forall id ensures id in Initially(gates) <==> id in ById(gates) {
      InitiallyPending(gates, id);
    }
    forall g | g in gates ensures GateInv(execute, Scheduler(Initially(gates), [], []), g) {
      GateIsKnown(gates, g);
      InitiallyPending(gates, g.id);
    }
  }

  lemma GateIsKnown(gates: seq<Gate>, g: Gate)
    requires g in gates
    ensures g.id in ById(gates)
  {
    var i :| 0 <= i < |gates| && gates[i] == g;
    ByIdKeys(gates, g.id);
  }

  /** Settled gates keep their state, so what was true of needs stays true. */
  lemma StepKeepsGate(
    gates: seq<Gate>, maxActive: int, execute: Gate -> Status, s: Scheduler, step: Step, g: Gate)
    requires UniqueIds(gates) && Inv(gates, maxActive, execute, s)
    requires Enabled(gates, maxActive, s, step) && g in gates
    ensures GateInv(execute, Take(execute, s, step), g)
  {
    var t := Take(execute, s, step);
    assert GateInv(execute, s, step.gate) && GateInv(execute, s, g);
    if step.Settle? { WithoutContents(s.running, step.gate); }
    if step.Skip? { FailedDepsBlock(step.gate.needs, s.states); }
    assert !s.states[step.gate.id].Settled?;
    assert forall id :: id in s.states && s.states[id].Settled? ==> t.states[id] == s.states[id];
    if g.id == step.gate.id {
      SameIdSameGate(gates, g, step.gate);
      if step.Skip? {
        var d := FailedDeps(g.needs, s.states)[0];
        assert d in g.needs && Blocking(d, t.states);
      }
    } else if s.states[g.id].Settled? && g !in s.executed {
      var d :| d in g.needs && Blocking(d, s.states);
      assert Blocking(d, t.states);
    }
  }

  lemma StepKeepsInv(gates: seq<Gate>, maxActive: int, execute: Gate -> Status, s: Scheduler, step: Step)
    requires UniqueIds(gates) && Inv(gates, maxActive, execute, s)
    requires Enabled(gates, maxActive, s, step)
    ensures Inv(gates, maxActive, execute, Take(execute, s, step))
  {
    forall g | g in gates ensures GateInv(execute, Take(execute, s, step), g) {
      StepKeepsGate(gates, maxActive, execute, s, step, g);
    }
    assert GateInv(execute, s, step.gate);
    GateIsKnown(gates, step.gate);
    if step.Settle? { WithoutContents(s.running, step.gate); }
    if step.Start? {
      assert step.gate !in s.executed && step.gate !in s.running;
    }
  }

  /** In every reachable state at most `maxActive` gates run, and each gate was executed at most once. */
  lemma {:induction false} ReachableInv(
    gates: seq<Gate>, maxActive: int, execute: Gate -> Status, steps: seq<Step>, s: Scheduler)
    requires UniqueIds(gates) && maxActive >= 0
    requires Reaches(gates, maxActive, execute, steps, s)
    ensures Inv(gates, maxActive, execute, s)
    decreases |steps|
  {
    if steps == [] {
      InitInv(gates, maxActive, execute);
    } else {
      var before :|
        && Reaches(gates, maxActive, execute, steps[..|steps| - 1], before)
        && Enabled(gates, maxActive, before, steps[|steps| - 1])
        && s == Take(execute, before, steps[|steps| - 1]);
      ReachableInv(gates, maxActive, execute, steps[..|steps| - 1], before);
      StepKeepsInv(gates, maxActive, execute, before, steps[|steps| - 1]);
    }
  }

  // ---------------------------------------------------------------- no stall, no endless run

  /** Among the gates with a property, one whose needs have lost it: the lowest in a ranking. */
  lemma {:induction false} LowestIn(gates: seq<Gate>, rank: map<string, nat>, some: set<string>, at: Gate)
    returns (low: Gate)
    requires Ranking(ById(gates), rank) && UniqueIds(gates) && KnownNeeds(gates)
    requires at in gates && at.id in some
    ensures low in gates && low.id in some && forall d :: d in low.needs ==> d !in some
    decreases rank[(GateIsKnown(gates, at); at.id)]
  {
    if d :| d in at.needs && d in some {
      var k :| 0 <= k < |gates| && gates[k] == at;
      ByIdUnique(gates, k);
      assert d in ById(gates);
      ByIdKeys(gates, d);
      var j :| 0 <= j < |gates| && gates[j].id == d;
      low := LowestIn(gates, rank, some, gates[j]);
    } else {
      low := at;
    }
  }

  /** When nothing runs and nothing is ready, the lowest unsettled gate has a failed or skipped need. */
  lemma QuietMeansBlocked(gates: seq<Gate>, maxActive: int, execute: Gate -> Status, s: Scheduler, g: Gate)
    returns (low: Gate)
    requires ValidGraph(gates) && Inv(gates, maxActive, execute, s)
    requires s.running == [] && forall h :: h in gates ==> !Ready(h, s.states)
    requires g in gates && s.states[g.id] == Pending
    ensures low in gates && s.states[low.id] == Pending && FailedDeps(low.needs, s.states) != []
  {
    var rank :| Ranking(ById(gates), rank);
    var unsettled := set id | id in s.states && !s.states[id].Settled?;
    low := LowestIn(gates, rank, unsettled, g);
    assert GateInv(execute, s, low) && !Ready(low, s.states);
    var d :| d in low.needs && !(d in s.states && s.states[d] == Settled(Passed));
    var k :| 0 <= k < |gates| && gates[k] == low;
    assert d in s.states && d !in unsettled;
    FailedDepsBlock(low.needs, s.states);
    assert s.states[d].status != Passed && Blocking(d, s.states);
  }

  /** Until every gate is settled some step is enabled, so the 'stalled' error cannot be raised. */
  lemma NeverStalls(gates: seq<Gate>, maxActive: int, execute: Gate -> Status, s: Scheduler)
    returns (step: Step)
    requires ValidGraph(gates) && maxActive >= 1 && Inv(gates, maxActive, execute, s)
    requires !Complete(gates, s)
    ensures Enabled(gates, maxActive, s, step)
  {
    if s.running != [] {
      step := Settle(s.running[0]);
    } else if g :| g in gates && Ready(g, s.states) {
      step := Start(g);
    } else {
      var g :| g in gates && !(g.id in s.states && s.states[g.id].Settled?);
      assert GateInv(execute, s, g);
      var low := QuietMeansBlocked(gates, maxActive, execute, s, g);
      step := Skip(low);
    }
  }

  ghost function SettledIds(states: States): set<string> {
    set id | id in states && states[id].Settled?
  }

  lemma SettledGrows(states: States, id: string, status: Status)
    requires id in states && !states[id].Settled?
    ensures SettledIds(states[id := Running]) == SettledIds(states)
    ensures |SettledIds(states[id := Settled(status)])| == |SettledIds(states)| + 1
  {
    assert SettledIds(states[id := Settled(status)]) == SettledIds(states) + {id};
  }

  lemma {:induction false} DistinctWithin(xs: seq<Gate>, gates: seq<Gate>)
    requires Distinct(xs) && forall x :: x in xs ==> x in gates
    ensures |xs| <= |gates|
  {
    if xs != [] {
      assert xs[0] in xs;
      var i :| 0 <= i < |gates| && gates[i] == xs[0];
      var rest := gates[..i] + gates[i + 1..];
      forall x | x in xs[1..] ensures x in rest {
        assert x in xs;
        var j :| 0 <= j < |gates| && gates[j] == x;
        assert j != i;
        assert x == if j < i then rest[j] else rest[j - 1];
      }
      DistinctWithin(xs[1..], rest);
    }
  }

  lemma {:induction false} IdCount(gates: seq<Gate>)
    ensures |ById(gates).Keys| <= |gates|
  {
    if gates != [] {
      var n := |gates| - 1;
      IdCount(gates[..n]);
      assert ById(gates).Keys == ById(gates[..n]).Keys + {gates[n].id};
    }
  }

  lemma StepCounts(gates: seq<Gate>, maxActive: int, execute: Gate -> Status, s: Scheduler, step: Step)
    requires Inv(gates, maxActive, execute, s) && Enabled(gates, maxActive, s, step)
    ensures
      var t := Take(execute, s, step);
      |t.executed| + |SettledIds(t.states)| == |s.executed| + |SettledIds(s.states)| + 1
  {
    assert GateInv(execute, s, step.gate);
    SettledGrows(s.states, step.gate.id, if step.Settle? then execute(step.gate) else Skipped);
  }

  /** Each step either executes one more gate or settles one more gate. */
  lemma {:induction false} StepCount(
    gates: seq<Gate>, maxActive: int, execute: Gate -> Status, steps: seq<Step>, s: Scheduler)
    requires UniqueIds(gates) && maxActive >= 0
    requires Reaches(gates, maxActive, execute, steps, s)
    ensures |steps| == |s.executed| + |SettledIds(s.states)|
    decreases |steps|
  {
    hide Inv;
    if steps == [] {
      forall id | id in s.states ensures s.states[id] == Pending {
        InitiallyPending(gates, id);
      }
      assert SettledIds(s.states) == {};
    } else {
      var last := steps[|steps| - 1];
      var before :|
        && Reaches(gates, maxActive, execute, steps[..|steps| - 1], before)
        && Enabled(gates, maxActive, before, last)
        && s == Take(execute, before, last);
      StepCount(gates, maxActive, execute, steps[..|steps| - 1], before);
      ReachableInv(gates, maxActive, execute, steps[..|steps| - 1], before);
      StepCounts(gates, maxActive, execute, before, last);
    }
  }

  /** Every run ends: no schedule takes more than two steps per gate. */
  lemma RunsAreBounded(
    gates: seq<Gate>, maxActive: int, execute: Gate -> Status, steps: seq<Step>, s: Scheduler)
    requires UniqueIds(gates) && maxActive >= 0
    requires Reaches(gates, maxActive, execute, steps, s)
    ensures |steps| <= 2 * |gates|
  {
    StepCount(gates, maxActive, execute, steps, s);
    ReachableInv(gates, maxActive, execute, steps, s);
    DistinctWithin(s.executed, gates);
    IdCount(gates);
    assert SettledIds(s.states) <= ById(gates).Keys;
    SubsetSize(SettledIds(s.states), ById(gates).Keys);
  }

  // ---------------------------------------------------------------- confluence

  ghost function Statuses(s: Scheduler): map<string, Status> {
    map id | id in s.states && s.states[id].Settled? :: s.states[id].status
  }

  /** A complete run has computed the solution, and executed exactly the gates whose needs all passed. */
  lemma CompleteRunSolves(
    gates: seq<Gate>, maxActive: int, execute: Gate -> Status, steps: seq<Step>, s: Scheduler)
    requires ValidGraph(gates) && maxActive >= 1
    requires Reaches(gates, maxActive, execute, steps, s) && Complete(gates, s)
    ensures Solution(gates, execute, Statuses(s))
    ensures Distinct(s.executed)
    ensures forall g :: g in s.executed <==> g in gates && AllPassed(g.needs, Statuses(s))
  {
    ReachableInv(gates, maxActive, execute, steps, s);
    forall id | id in ById(gates) ensures id in Statuses(s) {
      ByIdKeys(gates, id);
      var i :| 0 <= i < |gates| && gates[i].id == id;
      assert gates[i] in gates;
    }
    forall g | g in gates
      ensures g in s.executed <==> AllPassed(g.needs, Statuses(s))
      ensures g.id in Statuses(s)
      ensures Statuses(s)[g.id] == if AllPassed(g.needs, Statuses(s)) then execute(g) else Skipped
    {
      assert GateInv(execute, s, g);
      if g !in s.executed {
        var d :| d in g.needs && Blocking(d, s.states);
      }
    }
  }

  lemma {:induction false} SolutionsAgreeAt(
    gates: seq<Gate>, execute: Gate -> Status, rank: map<string, nat>,
    f: map<string, Status>, h: map<string, Status>, g: Gate)
    requires Ranking(ById(gates), rank) && UniqueIds(gates) && KnownNeeds(gates)
    requires Solution(gates, execute, f) && Solution(gates, execute, h) && g in gates
    ensures g.id in f && g.id in h && f[g.id] == h[g.id]
    decreases rank[(GateIsKnown(gates, g); g.id)]
  {
    GateIsKnown(gates, g);
    var k :| 0 <= k < |gates| && gates[k] == g;
    ByIdUnique(gates, k);
    forall d | d in g.needs ensures d in f && d in h && f[d] == h[d] {
      ByIdKeys(gates, d);
      var j :| 0 <= j < |gates| && gates[j].id == d;
      SolutionsAgreeAt(gates, execute, rank, f, h, gates[j]);
    }
  }

  /** A valid graph has one meaning. */
  lemma SolutionUnique(
    gates: seq<Gate>, execute: Gate -> Status, f: map<string, Status>, h: map<string, Status>)
    requires ValidGraph(gates) && Solution(gates, execute, f) && Solution(gates, execute, h)
    ensures f == h
  {
    var rank :| Ranking(ById(gates), rank);
    forall id | id in f ensures id in h && f[id] == h[id] {
      ByIdKeys(gates, id);
      var i :| 0 <= i < |gates| && gates[i].id == id;
      SolutionsAgreeAt(gates, execute, rank, f, h, gates[i]);
    }
  }

  /** Confluence: final statuses depend neither on the order of settlements nor on the worker count. */
  lemma RunsAgree(
    gates: seq<Gate>, execute: Gate -> Status,
    max1: int, steps1: seq<Step>, s1: Scheduler, max2: int, steps2: seq<Step>, s2: Scheduler)
    requires ValidGraph(gates) && max1 >= 1 && max2 >= 1
    requires Reaches(gates, max1, execute, steps1, s1) && Complete(gates, s1)
    requires Reaches(gates, max2, execute, steps2, s2) && Complete(gates, s2)
    ensures Statuses(s1) == Statuses(s2)
    ensures forall g :: g in s1.executed <==> g in s2.executed
  {
    CompleteRunSolves(gates, max1, execute, steps1, s1);
    CompleteRunSolves(gates, max2, execute, steps2, s2);
    SolutionUnique(gates, execute, Statuses(s1), Statuses(s2));
  }

  // ---------------------------------------------------------------- what passing means

  /** A gate passes exactly when its own outcome and every outcome below it in the graph is a pass. */
  ghost predicate AllBelowPass(gates: seq<Gate>, execute: Gate -> Status, g: Gate) {
    forall p, h :: p != [] && Walk(ById(gates), p) && p[0] == g.id && h in gates && h.id == p[|p| - 1] ==>
      execute(h) == Passed
  }

  lemma {:induction false} PassedReachesDown(
    gates: seq<Gate>, execute: Gate -> Status, final: map<string, Status>, p: seq<string>, h: Gate)
    requires UniqueIds(gates) && Solution(gates, execute, final)
    requires Walk(ById(gates), p) && h in gates && h.id == p[|p| - 1]
    requires p[0] in final && final[p[0]] == Passed
    ensures final[h.id] == Passed && execute(h) == Passed
    decreases |p|
  {
    if |p| > 1 {
      var q := p[..|p| - 1];
      ByIdKeys(gates, q[|q| - 1]);
      var i :| 0 <= i < |gates| && gates[i].id == q[|q| - 1] && gates[i].needs == ById(gates)[q[|q| - 1]];
      PassedReachesDown(gates, execute, final, q, gates[i]);
      assert gates[i] in gates && h.id in gates[i].needs;
    }
  }

  lemma AllBelowNeed(gates: seq<Gate>, execute: Gate -> Status, g: Gate, need: Gate)
    requires UniqueIds(gates) && g in gates && need.id in g.needs && AllBelowPass(gates, execute, g)
    ensures AllBelowPass(gates, execute, need)
  {
    hide Walk;
    GateIsKnown(gates, g);
    var k :| 0 <= k < |gates| && gates[k] == g;
    ByIdUnique(gates, k);
    forall p, h | p != [] && Walk(ById(gates), p) && p[0] == need.id && h in gates && h.id == p[|p| - 1]
      ensures execute(h) == Passed
    {
      PrependWalk(ById(gates), g.id, p);
      assert ([g.id] + p)[|p|] == p[|p| - 1];
    }
  }

  lemma {:induction false} AllBelowPassIsPassed(
    gates: seq<Gate>, execute: Gate -> Status, rank: map<string, nat>, final: map<string, Status>, g: Gate)
    requires Ranking(ById(gates), rank) && UniqueIds(gates) && KnownNeeds(gates)
    requires Solution(gates, execute, final) && g in gates && AllBelowPass(gates, execute, g)
    ensures final[g.id] == Passed
    decreases rank[(GateIsKnown(gates, g); g.id)]
  {
    GateIsKnown(gates, g);
    var k :| 0 <= k < |gates| && gates[k] == g;
    ByIdUnique(gates, k);
    assert Walk(ById(gates), [g.id]);
    forall d | d in g.needs ensures d in final && final[d] == Passed {
      ByIdKeys(gates, d);
      var j :| 0 <= j < |gates| && gates[j].id == d;
      AllBelowNeed(gates, execute, g, gates[j]);
      AllBelowPassIsPassed(gates, execute, rank, final, gates[j]);
    }
  }

  lemma {:induction false} PrependWalk(g: Graph, id: string, p: seq<string>)
    requires Walk(g, p) && id in g && p[0] in g[id]
    ensures Walk(g, [id] + p)
    decreases |p|
  {
    var longer := [id] + p;
    if |p| > 1 {
      PrependWalk(g, id, p[..|p| - 1]);
      assert longer[..|longer| - 1] == [id] + p[..|p| - 1];
    } else {
      assert longer[..1] == [id];
      assert Walk(g, [id]);
    }
  }

  lemma PassedIff(gates: seq<Gate>, execute: Gate -> Status, final: map<string, Status>, g: Gate)
    requires ValidGraph(gates) && Solution(gates, execute, final) && g in gates
    ensures final[g.id] == Passed <==> AllBelowPass(gates, execute, g)
  {
    var rank :| Ranking(ById(gates), rank);
    if AllBelowPass(gates, execute, g) {
      AllBelowPassIsPassed(gates, execute, rank, final, g);
    }
    if final[g.id] == Passed {
      forall p, h | p != [] && Walk(ById(gates), p) && p[0] == g.id && h in gates && h.id == p[|p| - 1]
        ensures execute(h) == Passed
      {
        PassedReachesDown(gates, execute, final, p, h);
      }
    }
  }
}
