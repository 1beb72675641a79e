/** The scheduling loop: a run of the step system that returns one report per graph and outcomes. */
module GateLoop {
  import opened Collections
  import opened JsIntegers
  import opened Wrappers
  import opened GateGraph
  import opened GateSteps


  /** One line of the report; `failedDeps` is the content of the skip message and empty otherwise. */
  datatype GateResult = GateResult(gate: Gate, status: Status, failedDeps: seq<string>)

  datatype RunError = InvalidGraph(error: GraphError) | InvalidConcurrency(maxActive: int)

  // ---------------------------------------------------------------- skip messages

  /** The place of the first pending gate with a failed or skipped need, or the length if there is none. */
  function FirstBlocked(pending: seq<Gate>, states: States): (k: nat)
    ensures k <= |pending|
    ensures k < |pending| ==> FailedDeps(pending[k].needs, states) != []
    ensures forall j :: 0 <= j < k ==> FailedDeps(pending[j].needs, states) == []
  {
    if pending == [] || FailedDeps(pending[0].needs, states) != [] then 0
    else 1 + FirstBlocked(pending[1..], states)
  }

  /** What each skipped gate is told, when the first blocked gate is always skipped next. */
  ghost function SkipReasons(pending: seq<Gate>, states: States): map<string, seq<string>>
    decreases |pending|
  {
    var k := FirstBlocked(pending, states);
    if k == |pending| then map[]
    else
      var g := pending[k];
      SkipReasons(pending[..k] + pending[k + 1..], states[g.id := Settled(Skipped)])
        [g.id := FailedDeps(g.needs, states)]
  }

  function PendingGates(gates: seq<Gate>, states: States): seq<Gate> {
    if gates == [] then []
    else
      var rest := PendingGates(gates[1..], states);
      if gates[0].id in states && states[gates[0].id] == Pending then [gates[0]] + rest else rest
  }

  /** The pending gates are in the order of the list. */
  lemma {:induction false} PendingGatesAppend(a: seq<Gate>, b: seq<Gate>, states: States)
    ensures PendingGates(a + b, states) == PendingGates(a, states) + PendingGates(b, states)
  {
    if a == [] {
      assert a + b == b;
    } else {
      assert (a + b)[1..] == a[1..] + b;
      PendingGatesAppend(a[1..], b, states);
    }
  }

  /** The states once every gate that can run has run and no gate has been skipped yet. */
  ghost predicate Quiescent(
    gates: seq<Gate>, execute: Gate -> Status, final: map<string, Status>, states: States)
  {
    && (forall id :: id in states <==> id in ById(gates))
    && forall g :: g in gates ==>
         && g.id in states
         && states[g.id] == if AllPassed(g.needs, final) then Settled(execute(g)) else Pending
  }

  ghost function ReasonFor(reasons: map<string, seq<string>>, id: string): seq<string> {
    if id in reasons then reasons[id] else []
  }

  // ---------------------------------------------------------------- the report and the exit code

  /** The report lists the gates in their own order, with the statuses of the solution and their reasons. */
  ghost predicate Reports(
    gates: seq<Gate>, execute: Gate -> Status, final: map<string, Status>, results: seq<GateResult>)
  {
    && |results| == |gates|
    && (forall i :: 0 <= i < |gates| ==>
          && results[i].gate == gates[i]
          && gates[i].id in final
          && results[i].status == final[gates[i].id])
    && exists q :: Quiescent(gates, execute, final, q) && Reasoned(gates, q, results)
  }

  ghost predicate Reasoned(gates: seq<Gate>, quiet: States, results: seq<GateResult>)
    requires |results| == |gates|
  {
    forall i :: 0 <= i < |gates| ==>
      results[i].failedDeps == ReasonFor(SkipReasons(PendingGates(gates, quiet), quiet), gates[i].id)
  }

  lemma QuiescentUnique(
    gates: seq<Gate>, execute: Gate -> Status, final: map<string, Status>, q: States, p: States)
    requires Quiescent(gates, execute, final, q) && Quiescent(gates, execute, final, p)
    ensures p == q
  {
    forall id | id in q ensures id in p && q[id] == p[id] {
      ByIdKeys(gates, id);
      var i :| 0 <= i < |gates| && gates[i].id == id;
      assert gates[i] in gates;
    }
  }

  /** The whole report, skip messages included, is a function of the gate list and the outcomes. */
  lemma ReportUnique(
    gates: seq<Gate>, execute: Gate -> Status,
    f: map<string, Status>, r: seq<GateResult>, h: map<string, Status>, t: seq<GateResult>)
    requires ValidGraph(gates) && Solution(gates, execute, f) && Solution(gates, execute, h)
    requires Reports(gates, execute, f, r) && Reports(gates, execute, h, t)
    ensures r == t
  {
    SolutionUnique(gates, execute, f, h);
    var q :| Quiescent(gates, execute, f, q) && Reasoned(gates, q, r);
    var p :| Quiescent(gates, execute, h, p) && Reasoned(gates, p, t);
    QuiescentUnique(gates, execute, f, p, q);
    forall i | 0 <= i < |gates| ensures r[i] == t[i] {
    }
  }

  /** What a skipped gate is told: some of its needs, each of which ended failed or skipped. */
  ghost predicate Blames(g: Gate, final: map<string, Status>, deps: seq<string>) {
    deps != [] && forall d :: d in deps ==> d in g.needs && d in final && (final[d] == Failed || final[d] == Skipped)
  }

  /** Some gates are settled as they end; the others are pending and are going to be skipped. */
  ghost predicate PartlySettled(gates: seq<Gate>, final: map<string, Status>, pending: seq<Gate>, states: States) {
    && Distinct(pending)
    && (forall g :: g in pending ==>
          g in gates && g.id in final && final[g.id] == Skipped && !AllPassed(g.needs, final))
    && (forall g :: g in gates ==>
          && g.id in states && g.id in final
          && if g in pending then states[g.id] == Pending else states[g.id] == Settled(final[g.id]))
  }

  /** The lowest pending gate has a need that failed or was skipped. */
  lemma SomeBlocked(
    gates: seq<Gate>, execute: Gate -> Status, final: map<string, Status>, pending: seq<Gate>, states: States)
    requires ValidGraph(gates) && Solution(gates, execute, final)
    requires PartlySettled(gates, final, pending, states) && pending != []
    ensures FirstBlocked(pending, states) < |pending|
  {
    var rank :| Ranking(ById(gates), rank);
    var unsettled := set g | g in pending :: g.id;
    assert pending[0] in pending;
    var low := LowestIn(gates, rank, unsettled, pending[0]);
    PendingById(gates, final, pending, states, low);
    var d :| d in low.needs && !(d in final && final[d] == Passed);
    NeedIsSettled(gates, final, pending, states, low, d);
    FailedDepsBlock(low.needs, states);
    assert d in FailedDeps(low.needs, states);
  }

  lemma PendingById(gates: seq<Gate>, final: map<string, Status>, pending: seq<Gate>, states: States, low: Gate)
    requires UniqueIds(gates) && PartlySettled(gates, final, pending, states)
    requires low in gates && exists g :: g in pending && g.id == low.id
    ensures low in pending
  {
    var g :| g in pending && g.id == low.id;
    SameIdSameGate(gates, g, low);
  }

  lemma NeedIsGate(gates: seq<Gate>, g: Gate, d: string) returns (h: Gate)
    requires UniqueIds(gates) && KnownNeeds(gates) && g in gates && d in g.needs
    ensures h in gates && h.id == d
  {
    var k :| 0 <= k < |gates| && gates[k] == g;
    ByIdUnique(gates, k);
    ByIdKeys(gates, d);
    var j :| 0 <= j < |gates| && gates[j].id == d;
    h := gates[j];
  }

  lemma NeedIsSettled(
    gates: seq<Gate>, final: map<string, Status>, pending: seq<Gate>, states: States, low: Gate, d: string)
    requires UniqueIds(gates) && KnownNeeds(gates) && PartlySettled(gates, final, pending, states)
    requires low in gates && d in low.needs && forall g :: g in pending ==> g.id != d
    ensures d in states && d in final && states[d] == Settled(final[d])
  {
    var h := NeedIsGate(gates, low, d);
  }

  lemma DepsBlame(gates: seq<Gate>, final: map<string, Status>, pending: seq<Gate>, states: States, g: Gate)
    requires UniqueIds(gates) && KnownNeeds(gates) && PartlySettled(gates, final, pending, states)
    requires g in gates && FailedDeps(g.needs, states) != []
    ensures Blames(g, final, FailedDeps(g.needs, states))
  {
    FailedDepsBlock(g.needs, states);
    forall d | d in FailedDeps(g.needs, states)
      ensures d in g.needs && d in final && (final[d] == Failed || final[d] == Skipped)
    {
      var h := NeedIsGate(gates, g, d);
      assert Blocking(d, states) && h !in pending;
    }
  }

  lemma OneMoreSkipped(
    gates: seq<Gate>, final: map<string, Status>, pending: seq<Gate>, states: States, k: nat)
    requires UniqueIds(gates) && PartlySettled(gates, final, pending, states) && k < |pending|
    ensures PartlySettled(gates, final, pending[..k] + pending[k + 1..], states[pending[k].id := Settled(Skipped)])
  {
    RemoveAt(pending, k);
    var gate := pending[k];
    assert gate in pending;
    forall h | h in gates && h.id == gate.id ensures h == gate {
      SameIdSameGate(gates, gate, h);
    }
  }

  /** Whatever is pending is told of needs that ended failed or skipped. */
  lemma {:induction false} ReasonsBlame(
    gates: seq<Gate>, execute: Gate -> Status, final: map<string, Status>, pending: seq<Gate>, states: States)
    requires ValidGraph(gates) && Solution(gates, execute, final)
    requires PartlySettled(gates, final, pending, states)
    ensures forall g :: g in pending ==>
      g.id in SkipReasons(pending, states) && Blames(g, final, SkipReasons(pending, states)[g.id])
    decreases |pending|
  {
    hide *;
    if pending != [] {
      SomeBlocked(gates, execute, final, pending, states);
      var k := FirstBlocked(pending, states);
      var rest := pending[..k] + pending[k + 1..];
      var next := states[pending[k].id := Settled(Skipped)];
      UniqueOfValid(gates);
      PendingAreGates(gates, final, pending, states);
      NextReason(pending, states);
      DepsBlame(gates, final, pending, states, pending[k]);
      OneMoreSkipped(gates, final, pending, states, k);
      ReasonsBlame(gates, execute, final, rest, next);
      OneMoreTold(gates, final, pending, k, SkipReasons(rest, next), FailedDeps(pending[k].needs, states));
    }
  }

  lemma NextReason(pending: seq<Gate>, states: States)
    requires FirstBlocked(pending, states) < |pending|
    ensures
      var k := FirstBlocked(pending, states);
      var g := pending[k];
      && FailedDeps(g.needs, states) != [] && g in pending
      && SkipReasons(pending, states) ==
         SkipReasons(pending[..k] + pending[k + 1..], states[g.id := Settled(Skipped)])
           [g.id := FailedDeps(g.needs, states)]
  {
  }

  lemma PendingAreGates(gates: seq<Gate>, final: map<string, Status>, pending: seq<Gate>, states: States)
    requires PartlySettled(gates, final, pending, states)
    ensures Distinct(pending) && forall g :: g in pending ==> g in gates
  {
  }

  lemma OneMoreTold(
    gates: seq<Gate>, final: map<string, Status>, pending: seq<Gate>, k: nat,
    reasons: map<string, seq<string>>, deps: seq<string>)
    requires UniqueIds(gates) && Distinct(pending) && k < |pending| && forall g :: g in pending ==> g in gates
    requires forall g :: g in pending[..k] + pending[k + 1..] ==> g.id in reasons && Blames(g, final, reasons[g.id])
    requires Blames(pending[k], final, deps)
    ensures
      var told := reasons[pending[k].id := deps];
      forall g :: g in pending ==> g.id in told && Blames(g, final, told[g.id])
  {
    RemoveAt(pending, k);
    hide Blames, UniqueIds;
    forall g | g in pending && g.id == pending[k].id ensures g == pending[k] {
      SameIdSameGate(gates, g, pending[k]);
    }
  }

  /** Where nothing has been skipped yet, what is pending is what cannot run. */
  lemma QuietIsPartlySettled(gates: seq<Gate>, execute: Gate -> Status, final: map<string, Status>, quiet: States)
    requires UniqueIds(gates) && Solution(gates, execute, final) && Quiescent(gates, execute, final, quiet)
    ensures PartlySettled(gates, final, PendingGates(gates, quiet), quiet)
    ensures forall g :: g in PendingGates(gates, quiet) <==> g in gates && !AllPassed(g.needs, final)
  {
    PendingGatesContents(gates, quiet);
    hide PendingGates, AllPassed;
  }

  /**
   * What the skip messages mean: a gate that the scheduler skipped names at least one of its needs, and
   * only needs that ended failed or skipped; a gate that was executed names none.
   */
  lemma SkippedAreBlamed(
    gates: seq<Gate>, execute: Gate -> Status, final: map<string, Status>, results: seq<GateResult>)
    requires ValidGraph(gates) && Solution(gates, execute, final) && Reports(gates, execute, final, results)
    ensures forall r :: r in results ==>
      if AllPassed(r.gate.needs, final) then r.failedDeps == [] else Blames(r.gate, final, r.failedDeps)
  {
    var q :| Quiescent(gates, execute, final, q) && Reasoned(gates, q, results);
    UniqueOfValid(gates);
    QuietIsPartlySettled(gates, execute, final, q);
    var pending := PendingGates(gates, q);
    ReasonsBlame(gates, execute, final, pending, q);
    forall r | r in results
      ensures if AllPassed(r.gate.needs, final) then r.failedDeps == [] else Blames(r.gate, final, r.failedDeps)
    {
      var i :| 0 <= i < |gates| && results[i] == r;
      assert r.gate == gates[i] && r.gate in gates;
      SkipReasonsOnlyPending(pending, q, r.gate.id);
      hide SkipReasons, PendingGates, Quiescent, Solution, ValidGraph, Blames, PartlySettled;
      forall g | g in pending && g.id == r.gate.id ensures g == r.gate {
        SameIdSameGate(gates, g, r.gate);
      }
    }
  }

  method ExitCode(results: seq<GateResult>) returns (code: int)
    ensures code == 0 || code == 1
    ensures code == 0 <==> forall r :: r in results ==> r.gate.allowFailure || r.status == Passed
  {
    for k := 0 to |results|
      invariant forall i :: 0 <= i < k ==> results[i].gate.allowFailure || results[i].status == Passed
    {
      var r := results[k];
      if !r.gate.allowFailure && (r.status == Failed || r.status == Skipped) {
        return 1;
      }
    }
    return 0;
  }

  /** The exit code of any run: clean exactly when every outcome below a blocking gate is a pass. */
  lemma CleanExitIff(
    gates: seq<Gate>, execute: Gate -> Status, final: map<string, Status>, results: seq<GateResult>)
    requires ValidGraph(gates) && Solution(gates, execute, final) && Reports(gates, execute, final, results)
    ensures (forall r :: r in results ==> r.gate.allowFailure || r.status == Passed)
            <==> (forall g :: g in gates && !g.allowFailure ==> AllBelowPass(gates, execute, g))
  {
    forall g | g in gates ensures final[g.id] == Passed <==> AllBelowPass(gates, execute, g) {
      PassedIff(gates, execute, final, g);
    }
    forall i | 0 <= i < |gates| ensures results[i] in results && gates[i] in gates {
    }
    if forall g :: g in gates && !g.allowFailure ==> AllBelowPass(gates, execute, g) {
      forall r | r in results ensures r.gate.allowFailure || r.status == Passed {
        var i :| 0 <= i < |results| && results[i] == r;
        assert gates[i] in gates;
      }
    }
    if forall r :: r in results ==> r.gate.allowFailure || r.status == Passed {
      forall g | g in gates && !g.allowFailure ensures AllBelowPass(gates, execute, g) {
        var i :| 0 <= i < |gates| && gates[i] == g;
        assert results[i] in results;
      }
    }
  }

  // ---------------------------------------------------------------- the loop

  /**
   * How the loop uses its freedom: it starts the first ready gate of the list, waits for a
   * settlement only when every worker is busy or nothing is ready, and skips the first blocked gate.
   */
  ghost predicate Disciplined(gates: seq<Gate>, maxActive: int, execute: Gate -> Status, steps: seq<Step>)
    decreases |steps|
  {
    steps == [] ||
    var before := steps[..|steps| - 1];
    && Disciplined(gates, maxActive, execute, before)
    && exists s :: Reaches(gates, maxActive, execute, before, s) && Chosen(gates, maxActive, s, steps[|steps| - 1])
  }

  ghost predicate Chosen(gates: seq<Gate>, maxActive: int, s: Scheduler, step: Step) {
    match step
    case Start(g) =>
      exists k :: 0 <= k < |gates| && gates[k] == g && forall j :: 0 <= j < k ==> !Ready(gates[j], s.states)
    case Settle(g) => |s.running| == maxActive || forall h :: h in gates ==> !Ready(h, s.states)
    case Skip(g) => true
  }

  /** The loop's log so far: a disciplined legal run that reaches the loop's variables. */
  ghost predicate Logged(
    gates: seq<Gate>, maxActive: int, execute: Gate -> Status, steps: seq<Step>, s: Scheduler)
  {
    && Reaches(gates, maxActive, execute, steps, s)
    && Disciplined(gates, maxActive, execute, steps)
    && Inv(gates, maxActive, execute, s)
  }

  lemma LogStep(
    gates: seq<Gate>, maxActive: int, execute: Gate -> Status, steps: seq<Step>, s: Scheduler, step: Step)
    requires UniqueIds(gates) && Logged(gates, maxActive, execute, steps, s)
    requires Enabled(gates, maxActive, s, step) && Chosen(gates, maxActive, s, step)
    ensures Logged(gates, maxActive, execute, steps + [step], Take(execute, s, step))
  {
    var next := steps + [step];
    assert next[..|next| - 1] == steps && next[|next| - 1] == step;
    StepKeepsInv(gates, maxActive, execute, s, step);
  }

  /** The results recorded so far are those of the settled gates. */
  ghost predicate Recorded(gates: seq<Gate>, states: States, results: map<string, GateResult>) {
    forall g :: g in gates ==>
      && g.id in states
      && (g.id in results <==> states[g.id].Settled?)
      && (g.id in results ==> results[g.id].gate == g && results[g.id].status == states[g.id].status)
  }

  method FindReady(gates: seq<Gate>, states: States) returns (k: nat)
    ensures k <= |gates|
    ensures forall j :: 0 <= j < k ==> !Ready(gates[j], states)
    ensures k < |gates| ==> Ready(gates[k], states)
  {
    for i := 0 to |gates|
      invariant forall j :: 0 <= j < i ==> !Ready(gates[j], states)
    {
      if Ready(gates[i], states) {
        return i;
      }
    }
    return |gates|;
  }

  /** The inner loop: fill the free workers with ready gates. */
  method StartReady(
    gates: seq<Gate>, maxActive: int, ghost execute: Gate -> Status,
    states0: States, running0: seq<Gate>, results: map<string, GateResult>,
    ghost executed0: seq<Gate>, ghost steps0: seq<Step>)
    returns (states: States, running: seq<Gate>, madeProgress: bool, ghost executed: seq<Gate>, ghost steps: seq<Step>)
    requires UniqueIds(gates) && maxActive >= 1
    requires Logged(gates, maxActive, execute, steps0, Scheduler(states0, running0, executed0))
    requires Recorded(gates, states0, results) && NoneSkipped(gates, states0, executed0)
    ensures Logged(gates, maxActive, execute, steps, Scheduler(states, running, executed))
    ensures Recorded(gates, states, results) && NoneSkipped(gates, states, executed)
    ensures |running| == maxActive || forall g :: g in gates ==> !Ready(g, states)
    ensures if madeProgress then |steps| > |steps0| else steps == steps0
  {
    states, running, executed, steps, madeProgress := states0, running0, executed0, steps0, false;
    while |running| < maxActive
      invariant Logged(gates, maxActive, execute, steps, Scheduler(states, running, executed))
      invariant Recorded(gates, states, results) && NoneSkipped(gates, states, executed)
      invariant if madeProgress then |steps| > |steps0| else steps == steps0
      decreases maxActive - |running|
    {
      var k := FindReady(gates, states);
      if k == |gates| {
        return;
      }
      ghost var s := Scheduler(states, running, executed);
      LogStep(gates, maxActive, execute, steps, s, Start(gates[k]));
      StartKeepsRecords(gates, states, executed, results, gates[k]);
      states := states[gates[k].id := Running];
      running := running + [gates[k]];
      executed := executed + [gates[k]];
      steps := steps + [Start(gates[k])];
      madeProgress := true;
    }
  }

  /** Before the final phase the only unexecuted gates are pending ones. */
  ghost predicate NoneSkipped(gates: seq<Gate>, states: States, executed: seq<Gate>) {
    forall g :: g in gates && g !in executed ==> g.id in states && states[g.id] == Pending
  }

  lemma StartKeepsRecords(
    gates: seq<Gate>, states: States, executed: seq<Gate>, results: map<string, GateResult>, g: Gate)
    requires UniqueIds(gates) && g in gates && Ready(g, states)
    requires Recorded(gates, states, results) && NoneSkipped(gates, states, executed)
    ensures Recorded(gates, states[g.id := Running], results)
    ensures NoneSkipped(gates, states[g.id := Running], executed + [g])
  {
    forall h | h in gates && h.id == g.id ensures h == g {
      SameIdSameGate(gates, g, h);
    }
  }

  lemma SettleKeepsRecords(
    gates: seq<Gate>, states: States, executed: seq<Gate>, results: map<string, GateResult>, r: GateResult)
    requires UniqueIds(gates) && r.gate in gates && Recorded(gates, states, results)
    ensures Recorded(gates, states[r.gate.id := Settled(r.status)], results[r.gate.id := r])
    ensures NoneSkipped(gates, states, executed) && r.gate in executed ==>
      NoneSkipped(gates, states[r.gate.id := Settled(r.status)], executed)
  {
    forall h | h in gates && h.id == r.gate.id ensures h == r.gate {
      SameIdSameGate(gates, r.gate, h);
    }
  }

  /** The state of the skip loop: who is left, who was told what, and that nothing can start. */
  ghost predicate Skipping(
    gates: seq<Gate>, results0: map<string, GateResult>, states: States, results: map<string, GateResult>,
    pending: seq<Gate>, told: map<string, seq<string>>)
  {
    && Recorded(gates, states, results)
    && (forall g :: g in gates ==> !Ready(g, states))
    && (forall g :: g in pending <==> g in gates && states[g.id] == Pending)
    && Distinct(pending)
    && (forall g :: g in gates ==> (g.id in told <==> g.id in results && g.id !in results0))
    && (forall g :: g in gates && g.id in results ==>
          results[g.id] == if g.id in results0 then results0[g.id] else GateResult(g, Skipped, told[g.id]))
  }

  lemma SkipKeepsSkipping(
    gates: seq<Gate>, results0: map<string, GateResult>, states: States, results: map<string, GateResult>,
    pending: seq<Gate>, told: map<string, seq<string>>, k: nat, deps: seq<string>)
    requires UniqueIds(gates) && Skipping(gates, results0, states, results, pending, told)
    requires k < |pending| && forall id :: id in results0 ==> id in results
    ensures pending[k] in gates && states[pending[k].id] == Pending && pending[k].id !in told
    ensures Skipping(
      gates, results0, states[pending[k].id := Settled(Skipped)],
      results[pending[k].id := GateResult(pending[k], Skipped, deps)],
      pending[..k] + pending[k + 1..], told[pending[k].id := deps])
  {
    var gate := pending[k];
    assert gate in pending;
    SettleKeepsRecords(gates, states, [], results, GateResult(gate, Skipped, deps));
    SkipWakesNobody(gates, states, gate);
    RemoveAt(pending, k);
    forall h | h in gates && h.id == gate.id ensures h == gate {
      SameIdSameGate(gates, gate, h);
    }
  }

  lemma TellNext(pending: seq<Gate>, states: States, told: map<string, seq<string>>)
    requires FirstBlocked(pending, states) < |pending| && pending[FirstBlocked(pending, states)].id !in told
    ensures
      var k := FirstBlocked(pending, states);
      var g := pending[k];
      SkipReasons(pending, states) + told ==
      SkipReasons(pending[..k] + pending[k + 1..], states[g.id := Settled(Skipped)]) +
      told[g.id := FailedDeps(g.needs, states)]
  {
  }

  lemma SkippingContext(
    gates: seq<Gate>, results0: map<string, GateResult>, states: States, results: map<string, GateResult>,
    pending: seq<Gate>, told: map<string, seq<string>>)
    requires Skipping(gates, results0, states, results, pending, told)
    ensures forall g :: g in gates ==> !Ready(g, states)
    ensures forall g :: g in pending <==> g in gates && g.id in states && states[g.id] == Pending
  {
  }

  /** The invariant of the skip loop; `total` is what the pending gates were going to be told at its start. */
  ghost predicate SkipLoop(
    gates: seq<Gate>, maxActive: int, execute: Gate -> Status, executed: seq<Gate>, steps: seq<Step>,
    total: map<string, seq<string>>, results0: map<string, GateResult>, states: States,
    results: map<string, GateResult>, pending: seq<Gate>, told: map<string, seq<string>>)
  {
    && Logged(gates, maxActive, execute, steps, Scheduler(states, [], executed))
    && Skipping(gates, results0, states, results, pending, told)
    && (forall id :: id in results0 ==> id in results)
    && total == SkipReasons(pending, states) + told
  }

  /** The 'stalled' error is unreachable: the loop always finds a blocked gate. */
  lemma BlockedIsFound(
    gates: seq<Gate>, maxActive: int, execute: Gate -> Status, s: Scheduler, pending: seq<Gate>)
    requires ValidGraph(gates) && Inv(gates, maxActive, execute, s) && s.running == []
    requires forall g :: g in gates ==> !Ready(g, s.states)
    requires pending != [] && forall g :: g in pending <==> g in gates && g.id in s.states && s.states[g.id] == Pending
    ensures FirstBlocked(pending, s.states) < |pending|
    ensures Enabled(gates, maxActive, s, Skip(pending[FirstBlocked(pending, s.states)]))
  {
    var k := FirstBlocked(pending, s.states);
    assert pending[0] in pending;
    var low := QuietMeansBlocked(gates, maxActive, execute, s, pending[0]);
    assert low in pending;
    assert pending[k] in pending;
  }

  lemma SkipLoopStep(
    gates: seq<Gate>, maxActive: int, execute: Gate -> Status, executed: seq<Gate>, steps: seq<Step>,
    total: map<string, seq<string>>, results0: map<string, GateResult>, states: States,
    results: map<string, GateResult>, pending: seq<Gate>, told: map<string, seq<string>>, k: nat)
    requires ValidGraph(gates) && pending != [] && k == FirstBlocked(pending, states)
    requires SkipLoop(gates, maxActive, execute, executed, steps, total, results0, states, results, pending, told)
    ensures k < |pending|
    ensures
      var deps := FailedDeps(pending[k].needs, states);
      SkipLoop(
        gates, maxActive, execute, executed, steps + [Skip(pending[k])], total, results0,
        states[pending[k].id := Settled(Skipped)],
        results[pending[k].id := GateResult(pending[k], Skipped, deps)],
        pending[..k] + pending[k + 1..], told[pending[k].id := deps])
  {
    hide GateInv, Recorded, Reaches, Disciplined, Skipping, SkipReasons;
    var s := Scheduler(states, [], executed);
    SkippingContext(gates, results0, states, results, pending, told);
    BlockedIsFound(gates, maxActive, execute, s, pending);
    var deps := FailedDeps(pending[k].needs, states);
    SkipKeepsSkipping(gates, results0, states, results, pending, told, k, deps);
    TellNext(pending, states, told);
    LogStep(gates, maxActive, execute, steps, s, Skip(pending[k]));
  }

  lemma UniqueOfValid(gates: seq<Gate>)
    requires ValidGraph(gates)
    ensures UniqueIds(gates) && KnownNeeds(gates)
  {
  }

  lemma SkipLoopStart(
    gates: seq<Gate>, maxActive: int, execute: Gate -> Status, executed: seq<Gate>, steps: seq<Step>,
    states: States, results: map<string, GateResult>)
    requires ValidGraph(gates)
    requires Logged(gates, maxActive, execute, steps, Scheduler(states, [], executed))
    requires Recorded(gates, states, results)
    requires forall g :: g in gates ==> !Ready(g, states)
    ensures
      var pending := PendingGates(gates, states);
      SkipLoop(
        gates, maxActive, execute, executed, steps, SkipReasons(pending, states), results, states, results, pending,
        map[])
  {
    hide Logged, SkipReasons, PendingGates, ValidGraph;
    UniqueOfValid(gates);
    PendingGatesContents(gates, states);
    assert SkipReasons(PendingGates(gates, states), states) + map[] == SkipReasons(PendingGates(gates, states), states);
  }

  lemma SkipLoopEnd(
    gates: seq<Gate>, maxActive: int, execute: Gate -> Status, executed: seq<Gate>, steps: seq<Step>,
    total: map<string, seq<string>>, results0: map<string, GateResult>, states: States,
    results: map<string, GateResult>, told: map<string, seq<string>>)
    requires SkipLoop(gates, maxActive, execute, executed, steps, total, results0, states, results, [], told)
    ensures Logged(gates, maxActive, execute, steps, Scheduler(states, [], executed))
    ensures Recorded(gates, states, results)
    ensures forall g :: g in gates ==> g.id in results
    ensures forall g :: g in gates ==>
      results[g.id] == if g.id in results0 then results0[g.id] else GateResult(g, Skipped, ReasonFor(total, g.id))
  {
    assert SkipReasons([], states) == map[];
    forall g | g in gates ensures g.id in results {
      assert GateInv(execute, Scheduler(states, [], executed), g);
    }
  }

  /** The last phase: skip everything that is left, always the first gate with a failed or skipped need. */
  method SkipRest(
    gates: seq<Gate>, ghost maxActive: int, ghost execute: Gate -> Status, states0: States,
    results0: map<string, GateResult>, ghost executed: seq<Gate>, ghost steps0: seq<Step>)
    returns (states: States, results: map<string, GateResult>, ghost steps: seq<Step>)
    requires ValidGraph(gates) && maxActive >= 1
    requires Logged(gates, maxActive, execute, steps0, Scheduler(states0, [], executed))
    requires Recorded(gates, states0, results0)
    requires forall g :: g in gates ==> !Ready(g, states0)
    ensures Logged(gates, maxActive, execute, steps, Scheduler(states, [], executed))
    ensures Recorded(gates, states, results)
    ensures forall g :: g in gates ==> g.id in results
    ensures forall g :: g in gates ==>
      results[g.id] == if g.id in results0 then results0[g.id]
                       else GateResult(g, Skipped, ReasonFor(SkipReasons(PendingGates(gates, states0), states0), g.id))
  {
    hide *;
    states, results, steps := states0, results0, steps0;
    var pending := PendingGates(gates, states0);
    SkipLoopStart(gates, maxActive, execute, executed, steps0, states0, results0);
    ghost var total := SkipReasons(pending, states0);
    ghost var told: map<string, seq<string>> := map[];
    while |pending| > 0
      invariant SkipLoop(gates, maxActive, execute, executed, steps, total, results0, states, results, pending, told)
      decreases |pending|
    {
      var k := FirstBlocked(pending, states);
      SkipLoopStep(gates, maxActive, execute, executed, steps, total, results0, states, results, pending, told, k);
      var gate := pending[k];
      var deps := FailedDeps(gate.needs, states);
      told := told[gate.id := deps];
      states := states[gate.id := Settled(Skipped)];
      results := results[gate.id := GateResult(gate, Skipped, deps)];
      steps := steps + [Skip(gate)];
      pending := pending[..k] + pending[k + 1..];
    }
    SkipLoopEnd(gates, maxActive, execute, executed, steps, total, results0, states, results, told);
  }

  lemma {:induction false} PendingGatesContents(gates: seq<Gate>, states: States)
    requires UniqueIds(gates)
    ensures Distinct(PendingGates(gates, states))
    ensures forall g :: g in PendingGates(gates, states) <==> g in gates && g.id in states && states[g.id] == Pending
  {
    if gates != [] {
      PendingGatesContents(gates[1..], states);
      assert forall g :: g in gates <==> g == gates[0] || g in gates[1..];
      assert gates[0] !in gates[1..];
    }
  }

  lemma RemoveAt(xs: seq<Gate>, k: nat)
    requires Distinct(xs) && k < |xs|
    ensures Distinct(xs[..k] + xs[k + 1..])
    ensures forall x :: x in xs[..k] + xs[k + 1..] <==> x in xs && x != xs[k]
  {
    forall x | x in xs && x != xs[k] ensures x in xs[..k] + xs[k + 1..] {
      var i :| 0 <= i < |xs| && xs[i] == x;
      assert x == if i < k then xs[..k][i] else xs[k + 1..][i - k - 1];
    }
  }

  lemma SkipWakesNobody(gates: seq<Gate>, states: States, gate: Gate)
    requires forall g :: g in gates ==> !Ready(g, states)
    requires gate.id in states && states[gate.id] == Pending
    ensures forall g :: g in gates ==> !Ready(g, states[gate.id := Settled(Skipped)])
  {
    forall g | g in gates && g.id in states && g.id != gate.id && states[g.id] == Pending
      ensures !DependenciesPassed(g, states[gate.id := Settled(Skipped)])
    {
      assert !Ready(g, states);
    }
  }

  /** From the quiet states to the report. */
  lemma ReportIsRight(
    gates: seq<Gate>, maxActive: int, execute: Gate -> Status, quiet: States, results0: map<string, GateResult>,
    end: Scheduler, results: map<string, GateResult>, report: seq<GateResult>)
    requires Inv(gates, maxActive, execute, Scheduler(quiet, [], end.executed))
    requires NoneSkipped(gates, quiet, end.executed) && Recorded(gates, quiet, results0)
    requires forall g :: g in gates && g.id in results0 ==> results0[g.id].failedDeps == []
    requires Recorded(gates, end.states, results) && Solution(gates, execute, Statuses(end))
    requires forall g :: g in end.executed <==> g in gates && AllPassed(g.needs, Statuses(end))
    requires forall g :: g in gates ==>
      && g.id in results
      && results[g.id] == if g.id in results0 then results0[g.id]
                          else GateResult(g, Skipped, ReasonFor(SkipReasons(PendingGates(gates, quiet), quiet), g.id))
    requires |report| == |gates|
    requires forall i :: 0 <= i < |gates| ==> gates[i].id in results && report[i] == results[gates[i].id]
    ensures Reports(gates, execute, Statuses(end), report)
  {
    var reasons := SkipReasons(PendingGates(gates, quiet), quiet);
    forall g | g in gates
      ensures quiet[g.id] == if AllPassed(g.needs, Statuses(end)) then Settled(execute(g)) else Pending
      ensures results[g.id].failedDeps == ReasonFor(reasons, g.id)
    {
      assert GateInv(execute, Scheduler(quiet, [], end.executed), g);
      if g.id in results0 {
        SkipReasonsOnlyPending(PendingGates(gates, quiet), quiet, g.id);
        PendingGatesIds(gates, quiet);
      }
    }
    assert Quiescent(gates, execute, Statuses(end), quiet);
    forall i | 0 <= i < |gates|
      ensures report[i].gate == gates[i] && report[i].status == Statuses(end)[gates[i].id]
      ensures report[i].failedDeps == ReasonFor(reasons, gates[i].id)
    {
      assert gates[i] in gates;
    }
    assert Reasoned(gates, quiet, report);
  }

  lemma {:induction false} SkipReasonsOnlyPending(pending: seq<Gate>, states: States, id: string)
    ensures id in SkipReasons(pending, states) ==> exists g :: g in pending && g.id == id
    decreases |pending|
  {
    var k := FirstBlocked(pending, states);
    if k < |pending| {
      hide FirstBlocked, FailedDeps;
      var g := pending[k];
      assert g in pending;
      var rest := pending[..k] + pending[k + 1..];
      SkipReasonsOnlyPending(rest, states[g.id := Settled(Skipped)], id);
      assert forall h :: h in rest ==> h in pending;
    }
  }

  lemma {:induction false} PendingGatesIds(gates: seq<Gate>, states: States)
    ensures forall g :: g in PendingGates(gates, states) ==> g.id in states && states[g.id] == Pending
  {
    if gates != [] {
      PendingGatesIds(gates[1..], states);
    }
  }

  method Collect(gates: seq<Gate>, results: map<string, GateResult>) returns (report: seq<GateResult>)
    requires forall g :: g in gates ==> g.id in results
    ensures |report| == |gates|
    ensures forall i :: 0 <= i < |gates| ==> gates[i].id in results && report[i] == results[gates[i].id]
  {
    report := [];
    for k := 0 to |gates|
      invariant |report| == k
      invariant forall i :: 0 <= i < k ==> gates[i].id in results && report[i] == results[gates[i].id]
    {
      assert gates[k] in gates;
      report := report + [results[gates[k].id]];
    }
  }

  lemma RaceStep(
    gates: seq<Gate>, maxActive: int, execute: Gate -> Status, s: Scheduler, steps: seq<Step>,
    results: map<string, GateResult>, g: Gate)
    requires UniqueIds(gates) && Logged(gates, maxActive, execute, steps, s)
    requires Recorded(gates, s.states, results) && NoneSkipped(gates, s.states, s.executed)
    requires g in s.running && Chosen(gates, maxActive, s, Settle(g))
    ensures Logged(gates, maxActive, execute, steps + [Settle(g)], Take(execute, s, Settle(g)))
    ensures Recorded(gates, s.states[g.id := Settled(execute(g))], results[g.id := GateResult(g, execute(g), [])])
    ensures NoneSkipped(gates, s.states[g.id := Settled(execute(g))], s.executed)
  {
    assert GateInv(execute, s, g);
    LogStep(gates, maxActive, execute, steps, s, Settle(g));
    SettleKeepsRecords(gates, s.states, s.executed, results, GateResult(g, execute(g), []));
  }

  /**
   * The aggregate runner. It rejects exactly the unusable inputs before anything is executed, always
   * ends, follows a disciplined legal run, and returns the report that the graph and outcomes determine.
   */
  method RunGates(gates: seq<Gate>, maxActive: int, execute: Gate -> Status)
    returns (outcome: Result<seq<GateResult>, RunError>, ghost steps: seq<Step>, ghost end: Scheduler)
    ensures outcome.Success? <==> ValidGraph(gates) && 1 <= maxActive <= MAX_SAFE_INTEGER
    ensures outcome.Failure? ==> steps == []
    ensures outcome.Failure? && !ValidGraph(gates) ==>
      outcome.error.InvalidGraph? && Explains(gates, outcome.error.error)
    ensures outcome.Failure? && ValidGraph(gates) ==> outcome.error == InvalidConcurrency(maxActive)
    ensures outcome.Success? ==>
      && Reaches(gates, maxActive, execute, steps, end)
      && Disciplined(gates, maxActive, execute, steps)
      && Complete(gates, end)
    ensures outcome.Success? ==>
      && Solution(gates, execute, Statuses(end))
      && Reports(gates, execute, Statuses(end), outcome.value)
  {
    steps := [];
    end := Scheduler(Initially(gates), [], []);
    var error := ValidateGateGraph(gates);
    if error.Some? {
      return Failure(InvalidGraph(error.value)), steps, end;
    }
    if maxActive < 1 || maxActive > MAX_SAFE_INTEGER {
      return Failure(InvalidConcurrency(maxActive)), steps, end;
    }
    var states := Initially(gates);
    var results: map<string, GateResult> := map[];
    var running: seq<Gate> := [];
    ghost var executed: seq<Gate> := [];
    InitInv(gates, maxActive, execute);
    forall g | g in gates ensures g.id in states && states[g.id] == Pending {
      GateIsKnown(gates, g);
      InitiallyPending(gates, g.id);
    }
    while true
      invariant Logged(gates, maxActive, execute, steps, Scheduler(states, running, executed))
      invariant Recorded(gates, states, results) && NoneSkipped(gates, states, executed)
      invariant forall g :: g in gates && g.id in results ==> results[g.id].failedDeps == []
      decreases 2 * |gates| - |steps|
    {
      RunsAreBounded(gates, maxActive, execute, steps, Scheduler(states, running, executed));
      var madeProgress: bool;
      states, running, madeProgress, executed, steps :=
        StartReady(gates, maxActive, execute, states, running, results, executed, steps);
      if |running| == 0 {
        break;
      }
      if !madeProgress {
        // Promise.race: any running gate may be the one that settles.
        var k :| 0 <= k < |running|;
        var settled := running[k];
        RaceStep(gates, maxActive, execute, Scheduler(states, running, executed), steps, results, settled);
        running := Without(running, settled);
        states := states[settled.id := Settled(execute(settled))];
        results := results[settled.id := GateResult(settled, execute(settled), [])];
        steps := steps + [Settle(settled)];
      }
    }
    ghost var before := results;
    ghost var quiet := states;
    states, results, steps := SkipRest(gates, maxActive, execute, states, results, executed, steps);
    end := Scheduler(states, [], executed);
    CompleteRunSolves(gates, maxActive, execute, steps, end);
    var report := Collect(gates, results);
    ReportIsRight(gates, maxActive, execute, quiet, before, end, results, report);
    outcome := Success(report);
  }
}
