/**
 * The validator in front of the gate runner (scripts/run-gates.ts): rejection of
 * empty, ambiguous or dangling gate lists, and the depth-first search for a
 * dependency cycle.
 */
module GateGraph {
  import opened Basics
  import opened Graphs

  /** A gate id, compared only for equality and printed by its text. */
  datatype Id = Id(text: string)

  /** A gate's scheduling metadata; an absent `needs` list is the empty list. */
  datatype Gate = Gate(id: Id, needs: seq<Id>, allowFailure: bool)

  /** `new Map(gates.map(gate => [gate.id, gate]))`: a repeated id keeps its last gate. */
  function ById(gates: seq<Gate>): (m: map<Id, Gate>)
    ensures forall id | id in m :: m[id] in gates && m[id].id == id
    ensures forall g | g in gates :: g.id in m
  {
    if gates == [] then map[]
    else
      var last := gates[|gates| - 1];
      ById(gates[..|gates| - 1])[last.id := last]
  }

  function NeedsGraph(gates: seq<Gate>): Graph<Id> {
    var byId := ById(gates);
    map id | id in byId :: byId[id].needs
  }

  ghost predicate UniqueIds(gates: seq<Gate>) {
    forall i, j | 0 <= i < j < |gates| :: gates[i].id != gates[j].id
  }

  ghost predicate KnownNeeds(gates: seq<Gate>) {
    forall i, d | 0 <= i < |gates| && d in gates[i].needs :: HasGate(gates, d)
  }

  ghost predicate HasGate(gates: seq<Gate>, id: Id) {
    exists i :: 0 <= i < |gates| && gates[i].id == id
  }

  /** What a gate list must satisfy to be executed. */
  ghost predicate WellFormed(gates: seq<Gate>) {
    && gates != []
    && UniqueIds(gates)
    && KnownNeeds(gates)
    && Acyclic(NeedsGraph(gates))
  }

  lemma {:induction false} ByIdUnique(gates: seq<Gate>, g: Gate)
    requires UniqueIds(gates) && g in gates
    ensures ById(gates)[g.id] == g
  {
    var n := |gates| - 1;
    if g != gates[n] {
      assert g in gates[..n];
      ByIdUnique(gates[..n], g);
    }
  }

  lemma NeedsGraphOf(gates: seq<Gate>, g: Gate)
    requires UniqueIds(gates) && g in gates
    ensures g.id in NeedsGraph(gates) && NeedsGraph(gates)[g.id] == g.needs
  {
    ByIdUnique(gates, g);
  }

  /** The path is a walk through the graph in which `active` records each open id's position. */
  ghost predicate OnPath(graph: Graph<Id>, path: seq<Id>, active: map<Id, nat>) {
    && (path != [] ==> IsWalk(graph, path))
    && (forall id | id in active :: active[id] < |path| && path[active[id]] == id)
    && active.Keys <= graph.Keys
  }

  /** The completed ids carry ranks, below `clock`, that descend along every explored edge. */
  ghost predicate Done(graph: Graph<Id>, complete: set<Id>, rank: map<Id, nat>, clock: nat) {
    && complete <= graph.Keys
    && complete == rank.Keys
    && (forall x | x in rank :: rank[x] < clock)
    && Ranked(graph, rank)
  }

  lemma PushNode(graph: Graph<Id>, path: seq<Id>, active: map<Id, nat>, id: Id)
    requires OnPath(graph, path, active) && id in graph && id !in active
    requires path != [] ==> Edge(graph, path[|path| - 1], id)
    ensures OnPath(graph, path + [id], active[id := |path|])
  {
    var w := path + [id];
    assert IsWalk(graph, w);
  }

  lemma PopNode(path: seq<Id>, active: map<Id, nat>, id: Id)
    requires id !in active
    ensures (path + [id])[..|path + [id]| - 1] == path
    ensures active[id := |path|] - {id} == active
  {
  }

  lemma CycleFound(graph: Graph<Id>, path: seq<Id>, active: map<Id, nat>, id: Id)
    requires OnPath(graph, path, active) && id in active && path != []
    requires Edge(graph, path[|path| - 1], id)
    ensures IsCycle(graph, path[active[id]..] + [id])
  {
    var w := path[active[id]..] + [id];
    forall i, j | 0 <= i < j < |w| && j == i + 1 ensures Edge(graph, w[i], w[j]) {
      assert w[i] == path[active[id] + i];
      if j < |w| - 1 {
        assert w[j] == path[active[id] + j];
      }
    }
  }

  ghost predicate VisitedUpTo(graph: Graph<Id>, needs: seq<Id>, i: nat, complete: set<Id>)
    requires i <= |needs|
  {
    forall k | 0 <= k < i && needs[k] in graph :: needs[k] in complete
  }

  lemma VisitedNext(graph: Graph<Id>, needs: seq<Id>, i: nat, before: set<Id>, after: set<Id>)
    requires i < |needs| && VisitedUpTo(graph, needs, i, before) && before <= after
    requires needs[i] in graph ==> needs[i] in after
    ensures VisitedUpTo(graph, needs, i + 1, after)
  {
  }

  lemma FinishedNode(graph: Graph<Id>, complete: set<Id>, rank: map<Id, nat>, clock: nat, id: Id)
    requires Done(graph, complete, rank, clock) && id in graph && id !in complete
    requires VisitedUpTo(graph, graph[id], |graph[id]|, complete)
    ensures Done(graph, complete + {id}, rank[id := clock], clock + 1)
  {
  }

  /** The mutable state shared by the nested `visit` closure of the cycle search. */
  class CycleFinder {
    const graph: Graph<Id>
    var complete: set<Id>
    var active: map<Id, nat>
    var path: seq<Id>
    // When each completed visit ended.
    ghost var rank: map<Id, nat>
    ghost var clock: nat

    constructor (gates: seq<Gate>)
      ensures Valid() && path == [] && graph == NeedsGraph(gates)
    {
      graph := NeedsGraph(gates);
      complete, active, path, rank, clock := {}, map[], [], map[], 0;
    }

    /** The active/path/complete invariant of the search. */
    ghost predicate Valid()
      reads this
    {
      && OnPath(graph, path, active)
      && Done(graph, complete, rank, clock)
      && forall x | x in active :: x !in complete
    }

    /** Every graph node not yet opened is among `unseen`, which shrinks along the recursion. */
    ghost predicate Covers(unseen: set<Id>)
      reads this
    {
      forall x | x in graph :: x in complete || x in active || x in unseen
    }

    method Visit(id: Id, ghost unseen: set<Id>) returns (cycle: Option<seq<Id>>)
      requires Valid() && Covers(unseen)
      requires path != [] ==> Edge(graph, path[|path| - 1], id)
      modifies this
      ensures cycle.Some? ==> IsCycle(graph, cycle.value)
      ensures cycle.None? ==> Valid() && path == old(path) && active == old(active)
      ensures cycle.None? ==> old(complete) <= complete && (id in graph ==> id in complete)
      decreases unseen
    {
      if id in complete { return None; }
      if id in active {
        CycleFound(graph, path, active, id);
        return Some(path[active[id]..] + [id]);
      }
      if id !in graph { return None; }

      ghost var path0, active0 := path, active;
      PushNode(graph, path, active, id);
      active := active[id := |path|];
      path := path + [id];
      var needs := graph[id];
      for i := 0 to |needs|
        invariant Valid() && Covers(unseen - {id})
        invariant path == path0 + [id] && active == active0[id := |path0|]
        invariant old(complete) <= complete
        invariant VisitedUpTo(graph, needs, i, complete)
      {
        ghost var before := complete;
        cycle := Visit(needs[i], unseen - {id});
        if cycle.Some? { return; }
        VisitedNext(graph, needs, i, before, complete);
      }
      FinishedNode(graph, complete, rank, clock, id);
      PopNode(path0, active0, id);
      path := path[..|path| - 1];
      active := active - {id};
      complete := complete + {id};
      rank, clock := rank[id := clock], clock + 1;
      return None;
    }

    /** The driver loop of the search over the whole gate list. */
    method Search(gates: seq<Gate>) returns (cycle: Option<seq<Id>>)
      requires Valid() && path == [] && graph == NeedsGraph(gates)
      modifies this
      ensures cycle.Some? ==> IsCycle(graph, cycle.value)
      ensures cycle.None? <==> Acyclic(graph)
    {
      for i := 0 to |gates|
        invariant Valid() && path == []
        invariant forall k | 0 <= k < i :: gates[k].id in complete
      {
        cycle := Visit(gates[i].id, graph.Keys);
        if cycle.Some? { return; }
      }
      RankedIsAcyclic(graph, rank);
      return None;
    }
  }

  /** No cycle is reported exactly for acyclic `needs` graphs, and a reported cycle is a real closed walk. */
  method FindDependencyCycle(gates: seq<Gate>) returns (cycle: Option<seq<Id>>)
    ensures cycle.None? <==> Acyclic(NeedsGraph(gates))
    ensures cycle.Some? ==> IsCycle(NeedsGraph(gates), cycle.value)
  {
    var finder := new CycleFinder(gates);
    cycle := finder.Search(gates);
  }

  datatype GraphError =
    | NoGates
    | DuplicateId(id: Id)
    | UnknownNeed(gate: Id, need: Id)
    | Cycle(ids: seq<Id>)

  /** All needs listed before need `n` of gate `i` belong to the list. */
  ghost predicate KnownBefore(gates: seq<Gate>, i: nat, n: nat) {
    forall k, m | 0 <= k <= i && k < |gates| && 0 <= m < |gates[k].needs| && (k == i ==> m < n) ::
      HasGate(gates, gates[k].needs[m])
  }

  /** Gate `j` is the first to repeat an id. */
  ghost predicate RepeatsAt(gates: seq<Gate>, j: nat, id: Id) {
    j < |gates| && gates[j].id == id && HasGate(gates[..j], id) && UniqueIds(gates[..j])
  }

  /** Need `n` of gate `i` is the first that no gate answers to. */
  ghost predicate UnknownAt(gates: seq<Gate>, i: nat, n: nat, gate: Id, need: Id) {
    && i < |gates| && n < |gates[i].needs| && gates[i].id == gate && gates[i].needs[n] == need
    && !HasGate(gates, need) && KnownBefore(gates, i, n)
  }

  /** The witness each rejection carries is genuine and the first of its kind, and earlier checks passed. */
  ghost predicate Explains(gates: seq<Gate>, e: GraphError) {
    match e
    case NoGates => gates == []
    case DuplicateId(id) => exists j: nat :: RepeatsAt(gates, j, id)
    case UnknownNeed(gate, need) => UniqueIds(gates) && exists i: nat, n: nat :: UnknownAt(gates, i, n, gate, need)
    case Cycle(ids) => UniqueIds(gates) && KnownNeeds(gates) && IsCycle(NeedsGraph(gates), ids)
  }

  lemma NextId(gates: seq<Gate>, i: nat)
    requires i < |gates|
    ensures forall id :: HasGate(gates[..i + 1], id) <==> HasGate(gates[..i], id) || id == gates[i].id
    ensures UniqueIds(gates[..i]) && !HasGate(gates[..i], gates[i].id) ==> UniqueIds(gates[..i + 1])
    ensures HasGate(gates[..i], gates[i].id) ==> !UniqueIds(gates)
  {
    var front, longer := gates[..i], gates[..i + 1];
    assert longer == front + [gates[i]];
    assert longer[i].id == gates[i].id;
    forall id | HasGate(front, id) ensures HasGate(longer, id) {
      var k :| 0 <= k < i && front[k].id == id;
      assert longer[k].id == id;
    }
  }

  lemma KnownRow(gates: seq<Gate>, i: nat)
    requires i < |gates| && KnownBefore(gates, i, |gates[i].needs|)
    ensures KnownBefore(gates, i + 1, 0)
  {
  }

  lemma KnownToTheEnd(gates: seq<Gate>)
    requires KnownBefore(gates, |gates|, 0)
    ensures KnownNeeds(gates)
  {
  }

  lemma UnknownIsUnknown(gates: seq<Gate>, i: nat, n: nat)
    requires i < |gates| && n < |gates[i].needs| && !HasGate(gates, gates[i].needs[n])
    ensures !KnownNeeds(gates)
  {
    assert gates[i].needs[n] in gates[i].needs;
  }

  method ValidateGateGraph(gates: seq<Gate>) returns (error: Option<GraphError>)
    ensures error.None? <==> WellFormed(gates)
    ensures error.Some? ==> Explains(gates, error.value)
  {
    if |gates| == 0 { return Some(NoGates); }
    var ids: set<Id> := {};
    for i := 0 to |gates|
      invariant forall id :: id in ids <==> HasGate(gates[..i], id)
      invariant UniqueIds(gates[..i])
    {
      NextId(gates, i);
      if gates[i].id in ids {
        assert RepeatsAt(gates, i, gates[i].id);
        return Some(DuplicateId(gates[i].id));
      }
      ids := ids + {gates[i].id};
    }
    assert gates[..|gates|] == gates;
    for i := 0 to |gates|
      invariant KnownBefore(gates, i, 0)
    {
      var needs := gates[i].needs;
      for n := 0 to |needs|
        invariant KnownBefore(gates, i, n)
      {
        if needs[n] !in ids {
          UnknownIsUnknown(gates, i, n);
          assert UnknownAt(gates, i, n, gates[i].id, needs[n]);
          return Some(UnknownNeed(gates[i].id, needs[n]));
        }
      }
      KnownRow(gates, i);
    }
    KnownToTheEnd(gates);
    var cycle := FindDependencyCycle(gates);
    if cycle.Some? { return Some(Cycle(cycle.value)); }
    return None;
  }
}
