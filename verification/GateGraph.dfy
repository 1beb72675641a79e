/** Gate lists and the preflight validation of their dependency graph. */
module GateGraph {
  import opened Wrappers

  /** A gate; the command, arguments and environment only matter to the executor and are not modelled. */
  datatype Gate = Gate(id: string, needs: seq<string>, allowFailure: bool)

  datatype GraphError =
    | NoGates
    | DuplicateId(id: string)
    | UnknownDependency(gate: string, dependency: string)
    | DependencyCycle(path: seq<string>)

  /** The dependency relation, keyed by gate id. */
  type Graph = map<string, seq<string>>

  // ---------------------------------------------------------------- what a graph should be

  ghost predicate Ranking(g: Graph, rank: map<string, nat>) {
    && g.Keys <= rank.Keys
    && forall id, d :: id in g && d in g[id] && d in g ==> rank[d] < rank[id]
  }

  /** No cycle: every gate can be given a number above the numbers of its dependencies. */
  ghost predicate Acyclic(g: Graph) {
    exists rank :: Ranking(g, rank)
  }

  /** A walk along `needs` edges through known gates. */
  ghost predicate Walk(g: Graph, p: seq<string>) {
    && p != []
    && p[|p| - 1] in g
    && (|p| > 1 ==> Walk(g, p[..|p| - 1]) && p[|p| - 1] in g[p[|p| - 2]])
  }

  lemma {:induction false} WalkSuffix(g: Graph, p: seq<string>, k: nat)
    requires Walk(g, p) && k < |p|
    ensures Walk(g, p[k..])
  {
    if k < |p| - 1 {
      WalkSuffix(g, p[..|p| - 1], k);
      assert p[k..][..|p[k..]| - 1] == p[..|p| - 1][k..];
      assert p[k..][|p[k..]| - 2] == p[|p| - 2];
    }
  }

  /** A closed walk whose ids repeat only at its two ends. */
  ghost predicate SimpleCycle(g: Graph, p: seq<string>) {
    && |p| >= 2
    && Walk(g, p)
    && p[0] == p[|p| - 1]
    && forall i, j :: 0 <= i < j < |p| - 1 ==> p[i] != p[j]
  }

  /** The dependency map; as in a JavaScript Map, the last gate with an id wins. */
  function ById(gates: seq<Gate>): Graph {
    if gates == [] then map[]
    else
      var last := gates[|gates| - 1];
      ById(gates[..|gates| - 1])[last.id := last.needs]
  }

  lemma {:induction false} ByIdKeys(gates: seq<Gate>, id: string)
    ensures id in ById(gates) <==> exists i :: 0 <= i < |gates| && gates[i].id == id
    ensures id in ById(gates) ==>
      exists i :: 0 <= i < |gates| && gates[i].id == id && gates[i].needs == ById(gates)[id]
  {
    if gates != [] {
      var n := |gates| - 1;
      ByIdKeys(gates[..n], id);
      assert forall i :: 0 <= i < n ==> gates[..n][i] == gates[i];
      if gates[n].id != id && id in ById(gates) {
        var i :| 0 <= i < n && gates[..n][i].id == id && gates[..n][i].needs == ById(gates[..n])[id];
        assert gates[i].id == id;
      }
    }
  }

  ghost predicate UniqueIds(gates: seq<Gate>) {
    forall i, j :: 0 <= i < j < |gates| ==> gates[i].id != gates[j].id
  }

  ghost predicate KnownNeeds(gates: seq<Gate>) {
    forall i, d :: 0 <= i < |gates| && d in gates[i].needs ==> d in ById(gates)
  }

  /** A gate list that can be executed unambiguously. */
  ghost predicate ValidGraph(gates: seq<Gate>) {
    && gates != []
    && UniqueIds(gates)
    && KnownNeeds(gates)
    && Acyclic(ById(gates))
  }

  lemma ByIdUnique(gates: seq<Gate>, i: nat)
    requires UniqueIds(gates) && i < |gates|
    ensures gates[i].id in ById(gates) && ById(gates)[gates[i].id] == gates[i].needs
  {
    ByIdKeys(gates, gates[i].id);
    var j :| 0 <= j < |gates| && gates[j].id == gates[i].id && gates[j].needs == ById(gates)[gates[i].id];
    assert i == j;
  }

  lemma {:induction false} RankFallsAlongWalk(g: Graph, rank: map<string, nat>, p: seq<string>)
    requires Ranking(g, rank) && Walk(g, p)
    ensures p[0] in g && (|p| > 1 ==> rank[p[|p| - 1]] < rank[p[0]])
    decreases |p|
  {
    if |p| > 1 {
      RankFallsAlongWalk(g, rank, p[..|p| - 1]);
    }
  }

  /** A cycle and a ranking exclude each other. */
  lemma CycleRefutesRanking(g: Graph, p: seq<string>)
    requires SimpleCycle(g, p)
    ensures !Acyclic(g)
  {
    if Acyclic(g) {
      var rank :| Ranking(g, rank);
      RankFallsAlongWalk(g, rank, p);
    }
  }

  lemma ExtendWalk(g: Graph, p: seq<string>, id: string)
    requires Walk(g, p) && id in g[p[|p| - 1]]
    ensures id in g ==> Walk(g, p + [id])
  {
    assert (p + [id])[..|p|] == p;
  }

  /** Reaching an id of the current path again closes a simple cycle. */
  lemma CloseWalk(g: Graph, path: seq<string>, id: string, at: nat)
    requires id in g ==> Walk(g, path + [id])
    requires at < |path| && path[at] == id && id in g
    requires forall i, j :: 0 <= i < j < |path| ==> path[i] != path[j]
    ensures SimpleCycle(g, path[at..] + [id])
  {
    WalkSuffix(g, path + [id], at);
    assert (path + [id])[at..] == path[at..] + [id];
  }

  // ---------------------------------------------------------------- depth-first search

  /** Ids in the order the search completes them: everything an id needs comes before it. */
  ghost predicate Finished(g: Graph, order: seq<string>) {
    && (forall i :: 0 <= i < |order| ==> order[i] in g)
    && (forall i, j :: 0 <= i < j < |order| ==> order[i] != order[j])
    && (forall i, d :: 0 <= i < |order| && d in g[order[i]] && d in g ==> d in order[..i])
  }

  lemma FinishedIsRanking(g: Graph, order: seq<string>)
    requires Finished(g, order) && (forall id :: id in g ==> id in order)
    ensures Acyclic(g)
  {
    var rank := map id | id in g :: Position(order, id);
    forall id, d | id in g && d in g[id] && d in g ensures rank[d] < rank[id] {
      var i := Position(order, id);
      assert order[i] == id;
      assert d in order[..i];
      var j :| 0 <= j < i && order[j] == d;
    }
    assert Ranking(g, rank);
  }

  ghost function Position(order: seq<string>, id: string): (i: nat)
    requires id in order
    ensures i < |order| && order[i] == id
  {
    var i :| 0 <= i < |order| && order[i] == id;
    i
  }

  lemma FinishNext(g: Graph, order: seq<string>, id: string)
    requires Finished(g, order) && id in g && id !in order
    requires forall d :: d in g[id] && d in g ==> d in order
    ensures Finished(g, order + [id])
  {
    var next := order + [id];
    forall i, d | 0 <= i < |next| && d in g[next[i]] && d in g ensures d in next[..i] {
      assert next[..i] == order[..i];
      assert order[..|order|] == order;
    }
  }

  /** The path under exploration, with `active` recording each id's place on it. */
  ghost predicate OnPath(g: Graph, path: seq<string>, active: map<string, nat>) {
    && (forall id :: id in active ==> active[id] < |path| && path[active[id]] == id)
    && (forall i :: 0 <= i < |path| ==> path[i] in g && path[i] in active && active[path[i]] == i)
    && (path != [] ==> Walk(g, path))
  }

  lemma PushOnPath(g: Graph, path: seq<string>, active: map<string, nat>, id: string)
    requires OnPath(g, path, active) && id in g && id !in active
    requires path != [] ==> Walk(g, path + [id])
    ensures OnPath(g, path + [id], active[id := |path|])
  {
  }

  /** The search state shared by all recursive visits: finished ids and the path under exploration. */
  class CycleFinder {
    const byId: Graph
    var complete: set<string>
    var active: map<string, nat>
    var path: seq<string>
    ghost var order: seq<string>

    ghost predicate Valid() reads this {
      && OnPath(byId, path, active)
      && Finished(byId, order)
      && (forall id :: id in complete <==> id in order)
      && complete !! active.Keys
    }

    constructor (byId: Graph)
      ensures Valid() && this.byId == byId && path == [] && complete == {}
    {
      this.byId := byId;
      complete, active, path, order := {}, map[], [], [];
    }

    method Visit(id: string) returns (cycle: Option<seq<string>>)
      requires Valid()
      requires path != [] && id in byId ==> Walk(byId, path + [id])
      modifies this
      ensures cycle.None? ==> Valid() && path == old(path) && active == old(active)
      ensures cycle.None? ==> old(complete) <= complete && (id in byId ==> id in complete)
      ensures cycle.Some? ==> SimpleCycle(byId, cycle.value)
      decreases byId.Keys - active.Keys
    {
      hide Finished, Walk;
      if id in complete {
        return None;
      }
      if id in active {
        CloseWalk(byId, path, id, active[id]);
        return Some(path[active[id]..] + [id]);
      }
      if id !in byId {
        return None;
      }
      PushOnPath(byId, path, active, id);
      active := active[id := |path|];
      path := path + [id];
      var needs := byId[id];
      for k := 0 to |needs|
        invariant Valid() && path == old(path) + [id] && active == old(active)[id := |old(path)|]
        invariant old(complete) <= complete
        invariant forall j :: 0 <= j < k && needs[j] in byId ==> needs[j] in complete
      {
        ExtendWalk(byId, path, needs[k]);
        var inner := Visit(needs[k]);
        if inner.Some? {
          return inner;
        }
      }
      Leave(id);
      assert active == old(active);
      return None;
    }

    /** The last steps of a visit without a cycle: the id leaves the path and is complete. */
    method Leave(id: string)
      requires Valid() && path != [] && path[|path| - 1] == id
      requires forall d :: d in byId[id] && d in byId ==> d in complete
      modifies this
      ensures Valid() && path == old(path)[..|old(path)| - 1]
      ensures active == old(active) - {id} && complete == old(complete) + {id}
    {
      path := path[..|path| - 1];
      active := active - {id};
      complete := complete + {id};
      FinishNext(byId, order, id);
      order := order + [id];
    }
  }

  /** The search answers none exactly on acyclic graphs, and otherwise exhibits a simple cycle. */
  method FindDependencyCycle(gates: seq<Gate>) returns (cycle: Option<seq<string>>)
    ensures cycle.None? <==> Acyclic(ById(gates))
    ensures cycle.Some? ==> SimpleCycle(ById(gates), cycle.value)
  {
    var finder := new CycleFinder(ById(gates));
    for k := 0 to |gates|
      invariant finder.Valid() && finder.path == [] && fresh(finder)
      invariant finder.byId == ById(gates)
      invariant forall i :: 0 <= i < k ==> gates[i].id in finder.complete
    {
      ByIdKeys(gates, gates[k].id);
      cycle := finder.Visit(gates[k].id);
      if cycle.Some? {
        CycleRefutesRanking(ById(gates), cycle.value);
        return;
      }
    }
    forall id | id in ById(gates) ensures id in finder.complete {
      ByIdKeys(gates, id);
    }
    FinishedIsRanking(ById(gates), finder.order);
    return None;
  }

  /** What each rejection tells the caller about the list. */
  ghost predicate Explains(gates: seq<Gate>, error: GraphError) {
    match error
    case NoGates => gates == []
    case DuplicateId(id) => exists i, j :: 0 <= i < j < |gates| && gates[i].id == gates[j].id == id
    case UnknownDependency(id, d) =>
      && UniqueIds(gates)
      && d !in ById(gates)
      && exists i :: 0 <= i < |gates| && gates[i].id == id && d in gates[i].needs
    case DependencyCycle(path) =>
      && UniqueIds(gates) && KnownNeeds(gates)
      && SimpleCycle(ById(gates), path)
  }

  /** Preflight accepts exactly the executable lists, and a rejection names a real defect. */
  method ValidateGateGraph(gates: seq<Gate>) returns (error: Option<GraphError>)
    ensures error.None? <==> ValidGraph(gates)
    ensures error.Some? ==> Explains(gates, error.value)
  {
    if |gates| == 0 {
      return Some(NoGates);
    }
    var ids: set<string> := {};
    for k := 0 to |gates|
      invariant forall id :: id in ids <==> exists i :: 0 <= i < k && gates[i].id == id
      invariant forall i, j :: 0 <= i < j < k ==> gates[i].id != gates[j].id
    {
      if gates[k].id in ids {
        return Some(DuplicateId(gates[k].id));
      }
      ids := ids + {gates[k].id};
      assert gates[k].id in ids;
    }
    forall id ensures id in ids <==> id in ById(gates) {
      ByIdKeys(gates, id);
    }
    for k := 0 to |gates|
      invariant forall i, d :: 0 <= i < k && d in gates[i].needs ==> d in ById(gates)
    {
      var needs := gates[k].needs;
      for m := 0 to |needs|
        invariant forall j :: 0 <= j < m ==> needs[j] in ById(gates)
      {
        if needs[m] !in ids {
          assert needs[m] in gates[k].needs;
          return Some(UnknownDependency(gates[k].id, needs[m]));
        }
      }
    }
    var cycle := FindDependencyCycle(gates);
    match cycle {
      case Some(path) => return Some(DependencyCycle(path));
      case None => return None;
    }
  }
}
