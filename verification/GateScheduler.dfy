/**
 * The bounded asynchronous gate runner (scripts/run-gates.ts) as a state machine
 * over start, settle and skip events, the properties of every run, and the
 * runner itself, whose `Promise.race` is an arbitrary choice among running gates.
 */
module GateScheduler {
  import opened Basics
  import opened Graphs
  import opened GateGraph
  import opened Texts

  datatype Status = Passed | Failed | Skipped

  datatype State = Pending | Running | Settled(status: Status)

  /** Process output and signal are not modelled; they never influence scheduling. */
  datatype GateResult = GateResult(
    gate: Gate, status: Status, durationMs: int, exitCode: Option<int>, error: Option<string>)

  /** The runner's `states` and `results` maps. */
  datatype Board = Board(states: map<Id, State>, results: map<Id, GateResult>)

  /** What a run shows from outside: a start line, or a result handed to the observer. */
  datatype Event =
    | Start(id: Id)
    | Settle(id: Id, result: GateResult)
    | Skip(id: Id, result: GateResult)

  function Initial(gates: seq<Gate>): Board {
    Board(map id | id in ById(gates) :: Pending, map[])
  }

  predicate NeedsPassed(g: Gate, b: Board) {
    forall d | d in g.needs :: d in b.states && b.states[d] == Settled(Passed)
  }

  predicate IsReady(g: Gate, b: Board) {
    g.id in b.states && b.states[g.id] == Pending && NeedsPassed(g, b)
  }

  /** A dependency that can never let its dependents run. */
  predicate IsBad(b: Board, d: Id) {
    d in b.states && (b.states[d] == Settled(Failed) || b.states[d] == Settled(Skipped))
  }

  predicate IsBlocked(g: Gate, b: Board) {
    g.id in b.states && b.states[g.id] == Pending && exists d | d in g.needs :: IsBad(b, d)
  }

  function FirstReady(gates: seq<Gate>, b: Board): (r: Option<Gate>)
    ensures r.Some? ==> r.value in gates && IsReady(r.value, b)
    ensures r.None? ==> forall g | g in gates :: !IsReady(g, b)
  {
    Find(gates, g => IsReady(g, b))
  }

  function FirstBlocked(gates: seq<Gate>, b: Board): (r: Option<Gate>)
    ensures r.Some? ==> r.value in gates && IsBlocked(r.value, b)
    ensures r.None? ==> forall g | g in gates :: !IsBlocked(g, b)
  {
    Find(gates, g => IsBlocked(g, b))
  }

  function IdTexts(ids: seq<Id>): (texts: seq<string>)
    ensures |texts| == |ids| && forall i | 0 <= i < |ids| :: texts[i] == ids[i].text
  {
    seq(|ids|, i requires 0 <= i < |ids| => ids[i].text)
  }

  function SkipResult(g: Gate, b: Board): GateResult {
    var bad := Filter(g.needs, d => IsBad(b, d));
    GateResult(g, Skipped, 0, None, Some("dependency failed or skipped: " + JoinWith(IdTexts(bad), ", ")))
  }

  function RunningIds(b: Board): set<Id> {
    set id | id in b.states && b.states[id] == Running
  }

  /** The runner may take `e` next: it starts the first ready gate while a slot is
      free, awaits only when full or nothing is ready, and skips only when drained. */
  predicate Enabled(gates: seq<Gate>, maxActive: int, b: Board, e: Event) {
    match e
    case Start(id) =>
      && |RunningIds(b)| < maxActive
      && FirstReady(gates, b).Some?
      && FirstReady(gates, b).value.id == id
    case Settle(id, _) =>
      && id in RunningIds(b)
      && (|RunningIds(b)| >= maxActive || FirstReady(gates, b).None?)
    case Skip(id, result) =>
      && RunningIds(b) == {}
      && FirstReady(gates, b).None?
      && FirstBlocked(gates, b).Some?
      && FirstBlocked(gates, b).value.id == id
      && result == SkipResult(FirstBlocked(gates, b).value, b)
  }

  function Apply(b: Board, e: Event): Board {
    match e
    case Start(id) => b.(states := b.states[id := Running])
    case Settle(id, r) => Board(b.states[id := Settled(r.status)], b.results[id := r])
    case Skip(id, r) => Board(b.states[id := Settled(Skipped)], b.results[id := r])
  }

  function After(b: Board, run: seq<Event>): Board
    decreases |run|
  {
    if run == [] then b else After(Apply(b, run[0]), run[1..])
  }

  predicate ValidRun(gates: seq<Gate>, maxActive: int, b: Board, run: seq<Event>)
    decreases |run|
  {
    run == [] || (Enabled(gates, maxActive, b, run[0]) && ValidRun(gates, maxActive, Apply(b, run[0]), run[1..]))
  }

  predicate IsComplete(b: Board) {
    forall id | id in b.states :: b.states[id].Settled?
  }

  /** Every settled gate's result is the one the executor yields for that gate. */
  predicate Executes(gates: seq<Gate>, exec: Gate -> GateResult, run: seq<Event>) {
    forall e | e in run && e.Settle? :: e.id in ById(gates) && e.result == exec(ById(gates)[e.id])
  }

  // ---------------------------------------------------------------------------
  // What every step keeps
  // ---------------------------------------------------------------------------

  ghost predicate HasBadNeed(b: Board, g: Gate) {
    exists d :: d in g.needs && IsBad(b, d)
  }

  /** Results are recorded exactly for settled gates, and at most `maxActive` gates run. */
  ghost predicate Bookkeeping(gates: seq<Gate>, maxActive: int, b: Board) {
    && b.states.Keys == ById(gates).Keys
    && |RunningIds(b)| <= maxActive
    && (forall id :: id in b.results <==> id in b.states && b.states[id].Settled?)
    && (forall id | id in b.results :: b.states[id] == Settled(b.results[id].status))
  }

  /** A running gate has its needs passed; a settled gate without that has a need that did not pass. */
  ghost predicate JustifiedGate(b: Board, g: Gate) {
    && (g.id in b.states && b.states[g.id].Running? ==> NeedsPassed(g, b))
    && (g.id in b.results && !NeedsPassed(g, b) ==> HasBadNeed(b, g))
  }

  ghost predicate Justified(gates: seq<Gate>, b: Board) {
    forall g | g in gates :: JustifiedGate(b, g)
  }

  ghost predicate Invariant(gates: seq<Gate>, maxActive: int, b: Board) {
    Bookkeeping(gates, maxActive, b) && Justified(gates, b)
  }

  lemma InitialInvariant(gates: seq<Gate>, maxActive: int)
    requires maxActive >= 0
    ensures Invariant(gates, maxActive, Initial(gates))
  {
    assert RunningIds(Initial(gates)) == {};
  }

  /** A settled gate is never touched again. */
  lemma SettledKept(gates: seq<Gate>, maxActive: int, b: Board, e: Event, id: Id)
    requires Enabled(gates, maxActive, b, e)
    requires id in b.states && b.states[id].Settled?
    ensures e.id != id
  {
  }

  lemma NeedsKept(gates: seq<Gate>, maxActive: int, b: Board, e: Event, g: Gate)
    requires Enabled(gates, maxActive, b, e)
    ensures NeedsPassed(g, b) ==> NeedsPassed(g, Apply(b, e))
    ensures HasBadNeed(b, g) ==> HasBadNeed(Apply(b, e), g)
  {
    var b' := Apply(b, e);
    forall d | d in g.needs && d in b.states && b.states[d].Settled?
      ensures d in b'.states && b'.states[d] == b.states[d]
    {
      SettledKept(gates, maxActive, b, e, d);
    }
    if HasBadNeed(b, g) {
      var d :| d in g.needs && IsBad(b, d);
      assert IsBad(b', d);
    }
  }

  /** The part of `Enabled` that bookkeeping depends on. */
  ghost predicate Touches(maxActive: int, b: Board, e: Event) {
    && e.id in b.states
    && match e
       case Start(id) => b.states[id].Pending? && |RunningIds(b)| < maxActive
       case Settle(id, _) => b.states[id].Running?
       case Skip(id, r) => b.states[id].Pending? && r.status == Skipped
  }

  lemma RunningAfter(maxActive: int, b: Board, e: Event)
    requires Touches(maxActive, b, e)
    ensures RunningIds(Apply(b, e))
         == if e.Start? then RunningIds(b) + {e.id} else if e.Settle? then RunningIds(b) - {e.id} else RunningIds(b)
    ensures e.Settle? <==> e.id in RunningIds(b)
  {
  }

  lemma RunningCountKept(maxActive: int, b: Board, e: Event)
    requires Touches(maxActive, b, e) && |RunningIds(b)| <= maxActive
    ensures |RunningIds(Apply(b, e))| <= maxActive
  {
    RunningAfter(maxActive, b, e);
  }

  lemma BookkeepingKept(gates: seq<Gate>, maxActive: int, b: Board, e: Event)
    requires Bookkeeping(gates, maxActive, b) && Touches(maxActive, b, e)
    ensures Bookkeeping(gates, maxActive, Apply(b, e))
  {
    RunningCountKept(maxActive, b, e);
    assert Apply(b, e).states.Keys == b.states.Keys;
  }

  lemma OtherGateKept(gates: seq<Gate>, maxActive: int, b: Board, e: Event, g: Gate)
    requires Enabled(gates, maxActive, b, e) && JustifiedGate(b, g) && e.id != g.id
    ensures JustifiedGate(Apply(b, e), g)
  {
    NeedsKept(gates, maxActive, b, e, g);
  }

  lemma OwnGateKept(gates: seq<Gate>, maxActive: int, b: Board, e: Event, g: Gate)
    requires UniqueIds(gates) && Enabled(gates, maxActive, b, e) && JustifiedGate(b, g) && g in gates && e.id == g.id
    requires g.id in b.results ==> g.id in b.states && b.states[g.id].Settled?
    ensures JustifiedGate(Apply(b, e), g)
  {
    NeedsKept(gates, maxActive, b, e, g);
    if e.Start? {
      assert FirstReady(gates, b).value == g;
    } else if e.Skip? {
      assert FirstBlocked(gates, b).value == g;
    }
  }

  lemma JustifiedKept(gates: seq<Gate>, maxActive: int, b: Board, e: Event)
    requires UniqueIds(gates) && Invariant(gates, maxActive, b) && Enabled(gates, maxActive, b, e)
    ensures Justified(gates, Apply(b, e))
  {
    forall g | g in gates ensures JustifiedGate(Apply(b, e), g) {
      assert JustifiedGate(b, g);
      if e.id == g.id {
        OwnGateKept(gates, maxActive, b, e, g);
      } else {
        OtherGateKept(gates, maxActive, b, e, g);
      }
    }
  }

  lemma StepInvariant(gates: seq<Gate>, maxActive: int, b: Board, e: Event)
    requires UniqueIds(gates) && Invariant(gates, maxActive, b) && Enabled(gates, maxActive, b, e)
    ensures Invariant(gates, maxActive, Apply(b, e))
  {
    BookkeepingKept(gates, maxActive, b, e);
    JustifiedKept(gates, maxActive, b, e);
  }

  // ---------------------------------------------------------------------------
  // Safety, termination and progress over every run
  // ---------------------------------------------------------------------------

  lemma {:induction false} RunInvariant(gates: seq<Gate>, maxActive: int, b: Board, run: seq<Event>)
    requires UniqueIds(gates) && Invariant(gates, maxActive, b) && ValidRun(gates, maxActive, b, run)
    ensures Invariant(gates, maxActive, After(b, run))
    decreases |run|
  {
    if run != [] {
      StepInvariant(gates, maxActive, b, run[0]);
      RunInvariant(gates, maxActive, Apply(b, run[0]), run[1..]);
    }
  }

  lemma {:induction false} AfterAppend(b: Board, run: seq<Event>, more: seq<Event>)
    ensures After(b, run + more) == After(After(b, run), more)
    decreases |run|
  {
    if run == [] {
      assert run + more == more;
    } else {
      assert (run + more)[1..] == run[1..] + more;
      AfterAppend(Apply(b, run[0]), run[1..], more);
    }
  }

  lemma {:induction false} ValidAppend(gates: seq<Gate>, maxActive: int, b: Board, run: seq<Event>, more: seq<Event>)
    ensures ValidRun(gates, maxActive, b, run + more)
       <==> ValidRun(gates, maxActive, b, run) && ValidRun(gates, maxActive, After(b, run), more)
    decreases |run|
  {
    if run == [] {
      assert run + more == more;
    } else {
      assert (run + more)[1..] == run[1..] + more;
      ValidAppend(gates, maxActive, Apply(b, run[0]), run[1..], more);
    }
  }

  function Starts(run: seq<Event>, id: Id): nat {
    |Filter(run, (e: Event) => e == Start(id))|
  }

  /** How often the observer is called, and a result recorded, for `id`. */
  function Reports(run: seq<Event>, id: Id): nat {
    |Filter(run, (e: Event) => !e.Start? && e.id == id)|
  }

  /** Each event touches only a gate that may move; enough to count events. */
  ghost predicate Disciplined(maxActive: int, b: Board, run: seq<Event>)
    decreases |run|
  {
    run == [] || (Touches(maxActive, b, run[0]) && Disciplined(maxActive, Apply(b, run[0]), run[1..]))
  }

  lemma {:induction false} ValidIsDisciplined(gates: seq<Gate>, maxActive: int, b: Board, run: seq<Event>)
    requires UniqueIds(gates) && Invariant(gates, maxActive, b) && ValidRun(gates, maxActive, b, run)
    ensures Disciplined(maxActive, b, run)
    decreases |run|
  {
    if run != [] {
      StepInvariant(gates, maxActive, b, run[0]);
      ValidIsDisciplined(gates, maxActive, Apply(b, run[0]), run[1..]);
    }
  }

  lemma {:induction false} OnceEach(maxActive: int, b: Board, run: seq<Event>, id: Id)
    requires Disciplined(maxActive, b, run) && id in b.states
    ensures Starts(run, id) <= if b.states[id].Pending? then 1 else 0
    ensures id in After(b, run).states
    ensures Reports(run, id) == if After(b, run).states[id].Settled? && !b.states[id].Settled? then 1 else 0
    ensures b.states[id].Settled? ==> After(b, run).states[id] == b.states[id]
    decreases |run|
  {
    if run != [] {
      OnceEach(maxActive, Apply(b, run[0]), run[1..], id);
    }
  }

  lemma PrefixIsValid(gates: seq<Gate>, maxActive: int, b: Board, run: seq<Event>, k: nat)
    requires k <= |run| && ValidRun(gates, maxActive, b, run)
    ensures ValidRun(gates, maxActive, b, run[..k])
    ensures k < |run| ==> Enabled(gates, maxActive, After(b, run[..k]), run[k])
  {
    assert run[..k] + run[k..] == run;
    ValidAppend(gates, maxActive, b, run[..k], run[k..]);
  }

  lemma PrefixOfRun(gates: seq<Gate>, maxActive: int, run: seq<Event>, k: nat)
    requires UniqueIds(gates) && maxActive >= 1 && k <= |run|
    requires ValidRun(gates, maxActive, Initial(gates), run)
    ensures Invariant(gates, maxActive, After(Initial(gates), run[..k]))
    ensures Disciplined(maxActive, Initial(gates), run[..k])
    ensures k < |run| ==> Enabled(gates, maxActive, After(Initial(gates), run[..k]), run[k])
  {
    InitialInvariant(gates, maxActive);
    PrefixIsValid(gates, maxActive, Initial(gates), run, k);
    RunInvariant(gates, maxActive, Initial(gates), run[..k]);
    ValidIsDisciplined(gates, maxActive, Initial(gates), run[..k]);
  }

  lemma StartsAfterNeeds(gates: seq<Gate>, maxActive: int, b: Board, e: Event)
    requires UniqueIds(gates) && Invariant(gates, maxActive, b) && Enabled(gates, maxActive, b, e) && e.Start?
    ensures forall g, d | g in gates && g.id == e.id && d in g.needs ::
              d in b.results && b.results[d].status == Passed
  {
    var ready := FirstReady(gates, b).value;
    ByIdUnique(gates, ready);
    forall g, d | g in gates && g.id == e.id && d in g.needs
      ensures d in b.results && b.results[d].status == Passed
    {
      ByIdUnique(gates, g);
      assert NeedsPassed(ready, b);
    }
  }

  /** At every point of every run: the concurrency bound, single starts and reports,
      starts only after every need passed, and waits only when full or nothing is ready. */
  lemma EveryRunIsSafe(gates: seq<Gate>, maxActive: int, run: seq<Event>, k: nat)
    requires WellFormed(gates) && maxActive >= 1 && k <= |run|
    requires ValidRun(gates, maxActive, Initial(gates), run)
    ensures var now := After(Initial(gates), run[..k]);
      && |RunningIds(now)| <= maxActive
      && (forall g | g in gates ::
            && Starts(run[..k], g.id) <= 1
            && Reports(run[..k], g.id) == if g.id in now.results then 1 else 0)
      && (k < |run| && run[k].Start? ==>
            forall g, d | g in gates && g.id == run[k].id && d in g.needs ::
              d in now.results && now.results[d].status == Passed)
      && (k < |run| && run[k].Settle? ==>
            |RunningIds(now)| == maxActive || forall g | g in gates :: !IsReady(g, now))
  {
    PrefixOfRun(gates, maxActive, run, k);
    forall g | g in gates {
      OnceEach(maxActive, Initial(gates), run[..k], g.id);
    }
    if k < |run| && run[k].Start? {
      StartsAfterNeeds(gates, maxActive, After(Initial(gates), run[..k]), run[k]);
    }
  }

  function PendingIds(b: Board): set<Id> {
    set id | id in b.states && b.states[id] == Pending
  }

  /** Events still possible: two for a pending gate, one for a running gate. */
  function Work(b: Board): nat {
    2 * |PendingIds(b)| + |RunningIds(b)|
  }

  lemma WorkFalls(maxActive: int, b: Board, e: Event)
    requires Touches(maxActive, b, e)
    ensures Work(Apply(b, e)) < Work(b)
  {
    PendingAfter(maxActive, b, e);
    RunningAfter(maxActive, b, e);
  }

  lemma PendingAfter(maxActive: int, b: Board, e: Event)
    requires Touches(maxActive, b, e)
    ensures PendingIds(Apply(b, e)) == if e.Settle? then PendingIds(b) else PendingIds(b) - {e.id}
    ensures !e.Settle? ==> e.id in PendingIds(b)
  {
  }

  lemma {:induction false} RunIsBounded(maxActive: int, b: Board, run: seq<Event>)
    requires Disciplined(maxActive, b, run)
    ensures |run| <= Work(b)
    decreases |run|
  {
    if run != [] {
      WorkFalls(maxActive, b, run[0]);
      RunIsBounded(maxActive, Apply(b, run[0]), run[1..]);
    }
  }

  lemma {:induction false} ByIdSize(gates: seq<Gate>)
    ensures |ById(gates)| <= |gates|
  {
    if gates != [] {
      var front, last := gates[..|gates| - 1], gates[|gates| - 1];
      ByIdSize(front);
      assert ById(gates).Keys == ById(front).Keys + {last.id};
    }
  }

  /** Every run terminates: a gate contributes at most a start and a result. */
  lemma EveryRunTerminates(gates: seq<Gate>, maxActive: int, run: seq<Event>)
    requires WellFormed(gates) && maxActive >= 1
    requires ValidRun(gates, maxActive, Initial(gates), run)
    ensures |run| <= 2 * |gates|
  {
    InitialInvariant(gates, maxActive);
    ValidIsDisciplined(gates, maxActive, Initial(gates), run);
    RunIsBounded(maxActive, Initial(gates), run);
    ByIdSize(gates);
    assert PendingIds(Initial(gates)) == ById(gates).Keys;
    assert RunningIds(Initial(gates)) == {};
  }

  lemma NeedKnown(gates: seq<Gate>, g: Gate, d: Id)
    requires KnownNeeds(gates) && g in gates && d in g.needs
    ensures d in ById(gates)
  {
    var i :| 0 <= i < |gates| && gates[i] == g;
    assert HasGate(gates, d);
  }

  lemma StuckNeed(gates: seq<Gate>, b: Board, g: Gate) returns (d: Id)
    requires KnownNeeds(gates) && b.states.Keys == ById(gates).Keys
    requires g in gates && g.id in PendingIds(b) && RunningIds(b) == {}
    requires !IsReady(g, b) && !IsBlocked(g, b)
    ensures d in g.needs && d in PendingIds(b)
  {
    d :| d in g.needs && !(d in b.states && b.states[d] == Settled(Passed));
    NeedKnown(gates, g, d);
    assert d !in RunningIds(b) && !IsBad(b, d);
    match b.states[d] {
      case Pending =>
      case Running =>
      case Settled(status) => match status { case Passed => case Failed => case Skipped => }
    }
  }

  /** The "stalled without a failed dependency" branch is dead: a drained board with
      pending gates has a gate with a failed or skipped need. */
  lemma DrainedHasBlocked(gates: seq<Gate>, b: Board)
    requires WellFormed(gates) && b.states.Keys == ById(gates).Keys
    requires RunningIds(b) == {} && FirstReady(gates, b).None? && PendingIds(b) != {}
    ensures FirstBlocked(gates, b).Some?
  {
    if FirstBlocked(gates, b).None? {
      var graph := NeedsGraph(gates);
      forall id | id in PendingIds(b) ensures HasEdgeInto(graph, id, PendingIds(b)) {
        var g := ById(gates)[id];
        NeedsGraphOf(gates, g);
        var d := StuckNeed(gates, b, g);
        assert Edge(graph, id, d);
      }
      TrapHasCycle(graph, PendingIds(b));
    }
  }

  lemma NextEvent(gates: seq<Gate>, maxActive: int, b: Board, r: GateResult) returns (next: Event)
    requires WellFormed(gates) && maxActive >= 1 && b.states.Keys == ById(gates).Keys
    requires !IsComplete(b)
    ensures Enabled(gates, maxActive, b, next)
  {
    var ready := FirstReady(gates, b);
    if ready.Some? && |RunningIds(b)| < maxActive {
      next := Start(ready.value.id);
    } else if RunningIds(b) != {} {
      var id :| id in RunningIds(b);
      next := Settle(id, r);
    } else {
      var id :| id in b.states && !b.states[id].Settled?;
      assert id !in RunningIds(b);
      assert id in PendingIds(b);
      DrainedHasBlocked(gates, b);
      var g := FirstBlocked(gates, b).value;
      next := Skip(g.id, SkipResult(g, b));
    }
  }

  /** No run gets stuck before every gate is settled. */
  lemma RunsNeverStall(gates: seq<Gate>, maxActive: int, run: seq<Event>, r: GateResult) returns (next: Event)
    requires WellFormed(gates) && maxActive >= 1
    requires ValidRun(gates, maxActive, Initial(gates), run)
    requires !IsComplete(After(Initial(gates), run))
    ensures ValidRun(gates, maxActive, Initial(gates), run + [next])
  {
    var b := After(Initial(gates), run);
    InitialInvariant(gates, maxActive);
    RunInvariant(gates, maxActive, Initial(gates), run);
    next := NextEvent(gates, maxActive, b, r);
    ValidAppend(gates, maxActive, Initial(gates), run, [next]);
  }

  // ---------------------------------------------------------------------------
  // Confluence: the outcome does not depend on the interleaving
  // ---------------------------------------------------------------------------

  predicate ExecPasses(gates: seq<Gate>, exec: Gate -> GateResult, id: Id) {
    id in ById(gates) && exec(ById(gates)[id]).status == Passed
  }

  /** Every gate that `id` transitively needs passes on its own. */
  ghost predicate Clear(gates: seq<Gate>, exec: Gate -> GateResult, id: Id) {
    forall d, x | Edge(NeedsGraph(gates), id, d) && Reaches(NeedsGraph(gates), d, x) :: ExecPasses(gates, exec, x)
  }

  /** The closed form of a gate's final status, free of any schedule. */
  ghost function FinalStatus(gates: seq<Gate>, exec: Gate -> GateResult, g: Gate): Status {
    if Clear(gates, exec, g.id) then exec(g).status else Skipped
  }

  /** `passed` holds exactly the gates that pass themselves and whose needs it holds. */
  ghost predicate IsPassedSet(gates: seq<Gate>, exec: Gate -> GateResult, passed: set<Id>) {
    forall g | g in gates :: g.id in passed <==> exec(g).status == Passed && forall d | d in g.needs :: d in passed
  }

  lemma PassedNeedsAreClear(gates: seq<Gate>, exec: Gate -> GateResult, passed: set<Id>, g: Gate)
    requires WellFormed(gates) && IsPassedSet(gates, exec, passed) && passed <= ById(gates).Keys
    requires g in gates && forall d | d in g.needs :: d in passed
    ensures Clear(gates, exec, g.id)
  {
    var graph := NeedsGraph(gates);
    NeedsGraphOf(gates, g);
    forall x, y | x in passed && Edge(graph, x, y) ensures y in passed {
      NeedsGraphOf(gates, ById(gates)[x]);
    }
    forall d, x | Edge(graph, g.id, d) && Reaches(graph, d, x) ensures ExecPasses(gates, exec, x) {
      ReachesStaysInside(graph, passed, d, x);
    }
  }

  lemma ClearNeedsPass(gates: seq<Gate>, exec: Gate -> GateResult, passed: set<Id>, g: Gate)
    requires WellFormed(gates) && IsPassedSet(gates, exec, passed)
    requires g in gates && Clear(gates, exec, g.id)
    ensures forall d | d in g.needs :: d in passed
  {
    if d :| d in g.needs && d !in passed {
      var graph := NeedsGraph(gates);
      NeedsGraphOf(gates, g);
      NeedKnown(gates, g, d);
      ReachesSelf(graph, d);
      var trap := set x | x in graph && x !in passed && Reaches(graph, d, x);
      forall x | x in trap ensures HasEdgeInto(graph, x, trap) {
        var h := ById(gates)[x];
        NeedsGraphOf(gates, h);
        assert ExecPasses(gates, exec, x);
        var y :| y in h.needs && y !in passed;
        NeedKnown(gates, h, y);
        ReachesExtend(graph, d, x, y);
        assert y in trap && Edge(graph, x, y);
      }
      assert d in trap;
      TrapHasCycle(graph, trap);
    }
  }

  function PassedIds(b: Board): set<Id> {
    set id | id in b.states && b.states[id] == Settled(Passed)
  }

  ghost predicate HonestResult(exec: Gate -> GateResult, b: Board, g: Gate) {
    g.id in b.results ==>
      if NeedsPassed(g, b) then b.results[g.id] == exec(g)
      else b.results[g.id].status == Skipped && b.results[g.id].gate == g
  }

  /** Settled gates carry their executor's result, or are skipped over a need that did not pass. */
  ghost predicate Honest(gates: seq<Gate>, exec: Gate -> GateResult, b: Board) {
    forall g | g in gates :: HonestResult(exec, b, g)
  }

  lemma SkipIsBlocked(gates: seq<Gate>, maxActive: int, b: Board, e: Event, g: Gate)
    requires UniqueIds(gates) && Enabled(gates, maxActive, b, e) && e.Skip?
    requires g in gates && e.id == g.id
    ensures HasBadNeed(b, g) && e.result == SkipResult(g, b)
  {
    ByIdUnique(gates, g);
    ByIdUnique(gates, FirstBlocked(gates, b).value);
  }

  lemma HonestCase(maxActive: int, exec: Gate -> GateResult, b: Board, e: Event, g: Gate)
    requires Touches(maxActive, b, e) && HonestResult(exec, b, g)
    requires g.id in b.results ==> NeedsPassed(g, b) || HasBadNeed(b, g)
    requires g.id in b.results ==> g.id in b.states && b.states[g.id].Settled?
    requires NeedsPassed(g, b) ==> NeedsPassed(g, Apply(b, e))
    requires HasBadNeed(b, g) ==> HasBadNeed(Apply(b, e), g)
    requires e.id == g.id && e.Settle? ==> NeedsPassed(g, b) && e.result == exec(g)
    requires e.id == g.id && e.Skip? ==> HasBadNeed(b, g) && e.result == SkipResult(g, b)
    ensures HonestResult(exec, Apply(b, e), g)
  {
  }

  lemma HonestKept(gates: seq<Gate>, maxActive: int, exec: Gate -> GateResult, b: Board, e: Event)
    requires UniqueIds(gates) && Invariant(gates, maxActive, b) && Enabled(gates, maxActive, b, e)
    requires Honest(gates, exec, b) && Executes(gates, exec, [e])
    ensures Honest(gates, exec, Apply(b, e))
  {
    assert e in [e];
    forall g | g in gates ensures HonestResult(exec, Apply(b, e), g) {
      ByIdUnique(gates, g);
      NeedsKept(gates, maxActive, b, e, g);
      if e.Skip? && e.id == g.id {
        SkipIsBlocked(gates, maxActive, b, e, g);
      }
      HonestCase(maxActive, exec, b, e, g);
    }
  }

  lemma HonestStep(gates: seq<Gate>, maxActive: int, exec: Gate -> GateResult, b: Board, run: seq<Event>)
    requires UniqueIds(gates) && Invariant(gates, maxActive, b) && ValidRun(gates, maxActive, b, run)
    requires Honest(gates, exec, b) && Executes(gates, exec, run) && run != []
    ensures var b' := Apply(b, run[0]);
      && Invariant(gates, maxActive, b') && ValidRun(gates, maxActive, b', run[1..])
      && Honest(gates, exec, b') && Executes(gates, exec, run[1..])
  {
    StepInvariant(gates, maxActive, b, run[0]);
    HonestKept(gates, maxActive, exec, b, run[0]);
  }

  lemma {:induction false} HonestRun(gates: seq<Gate>, maxActive: int, exec: Gate -> GateResult, b: Board,
                                     run: seq<Event>)
    requires UniqueIds(gates) && Invariant(gates, maxActive, b) && ValidRun(gates, maxActive, b, run)
    requires Honest(gates, exec, b) && Executes(gates, exec, run)
    ensures Honest(gates, exec, After(b, run))
    decreases |run|
  {
    if run != [] {
      HonestStep(gates, maxActive, exec, b, run);
      HonestRun(gates, maxActive, exec, Apply(b, run[0]), run[1..]);
    }
  }

  ghost predicate NothingSkipped(gates: seq<Gate>, b: Board) {
    forall g | g in gates && g.id in b.results :: NeedsPassed(g, b)
  }

  /** Nothing runs and nothing can start: the runner is about to skip or to finish. */
  ghost predicate Drained(gates: seq<Gate>, b: Board) {
    RunningIds(b) == {} && forall g | g in gates :: !IsReady(g, b)
  }

  ghost predicate AllSkips(run: seq<Event>) {
    forall e | e in run :: e.Skip?
  }

  lemma NoneReady(gates: seq<Gate>, b: Board)
    requires forall g | g in gates :: !IsReady(g, b)
    ensures FirstReady(gates, b).None?
  {
  }

  lemma {:induction false} DrainedOnlySkips(gates: seq<Gate>, maxActive: int, b: Board, run: seq<Event>)
    requires Drained(gates, b) && ValidRun(gates, maxActive, b, run)
    ensures AllSkips(run)
    decreases |run|
  {
    if run != [] {
      NoneReady(gates, b);
      var b' := Apply(b, run[0]);
      assert run[0].Skip?;
      assert RunningIds(b') == {};
      forall g | g in gates ensures !IsReady(g, b') {
        assert !IsReady(g, b);
      }
      DrainedOnlySkips(gates, maxActive, b', run[1..]);
      assert run == [run[0]] + run[1..];
    }
  }

  lemma NothingSkippedKept(gates: seq<Gate>, maxActive: int, b: Board, e: Event)
    requires UniqueIds(gates) && Invariant(gates, maxActive, b) && Enabled(gates, maxActive, b, e)
    requires NothingSkipped(gates, b) && !e.Skip?
    ensures NothingSkipped(gates, Apply(b, e))
  {
    forall g | g in gates && g.id in Apply(b, e).results ensures NeedsPassed(g, Apply(b, e)) {
      NeedsKept(gates, maxActive, b, e, g);
    }
  }

  lemma CompleteIsDrained(gates: seq<Gate>, b: Board)
    requires IsComplete(b)
    ensures Drained(gates, b)
  {
  }

  lemma FirstSkipDrains(gates: seq<Gate>, maxActive: int, b: Board, run: seq<Event>)
    requires ValidRun(gates, maxActive, b, run) && run != [] && run[0].Skip?
    ensures Drained(gates, b) && AllSkips(run)
  {
    DrainedOnlySkips(gates, maxActive, b, run);
  }

  lemma StepBeforeDrain(gates: seq<Gate>, maxActive: int, exec: Gate -> GateResult, b: Board, run: seq<Event>)
    requires UniqueIds(gates) && Invariant(gates, maxActive, b) && ValidRun(gates, maxActive, b, run)
    requires Honest(gates, exec, b) && Executes(gates, exec, run) && NothingSkipped(gates, b)
    requires run != [] && !run[0].Skip?
    ensures var b' := Apply(b, run[0]);
      && Invariant(gates, maxActive, b') && ValidRun(gates, maxActive, b', run[1..])
      && Honest(gates, exec, b') && Executes(gates, exec, run[1..]) && NothingSkipped(gates, b')
  {
    HonestStep(gates, maxActive, exec, b, run);
    NothingSkippedKept(gates, maxActive, b, run[0]);
  }

  /** A complete run is a part without skips that drains the board, then only skips. */
  lemma {:induction false} SplitAtDrain(gates: seq<Gate>, maxActive: int, exec: Gate -> GateResult, b: Board,
                                        run: seq<Event>)
    returns (drained: Board, skips: seq<Event>)
    requires UniqueIds(gates) && Invariant(gates, maxActive, b) && ValidRun(gates, maxActive, b, run)
    requires Honest(gates, exec, b) && Executes(gates, exec, run) && NothingSkipped(gates, b)
    requires IsComplete(After(b, run))
    ensures After(drained, skips) == After(b, run)
    ensures ValidRun(gates, maxActive, drained, skips) && AllSkips(skips)
    ensures Invariant(gates, maxActive, drained) && Honest(gates, exec, drained)
    ensures NothingSkipped(gates, drained) && Drained(gates, drained)
    decreases |run|
  {
    if run == [] {
      drained, skips := b, run;
      CompleteIsDrained(gates, b);
    } else if run[0].Skip? {
      drained, skips := b, run;
      FirstSkipDrains(gates, maxActive, b, run);
    } else {
      StepBeforeDrain(gates, maxActive, exec, b, run);
      drained, skips := SplitAtDrain(gates, maxActive, exec, Apply(b, run[0]), run[1..]);
    }
  }

  lemma DrainedPassedSet(gates: seq<Gate>, maxActive: int, exec: Gate -> GateResult, b: Board)
    requires WellFormed(gates) && Invariant(gates, maxActive, b) && Honest(gates, exec, b)
    requires NothingSkipped(gates, b) && Drained(gates, b)
    ensures IsPassedSet(gates, exec, PassedIds(b))
    ensures forall g | g in gates :: g.id in b.results <==> NeedsPassed(g, b)
  {
    forall g | g in gates ensures g.id in b.results <==> NeedsPassed(g, b) {
      assert !IsReady(g, b) && g.id !in RunningIds(b);
    }
  }

  lemma DrainedClosedForm(gates: seq<Gate>, maxActive: int, exec: Gate -> GateResult, b: Board, g: Gate)
    requires WellFormed(gates) && Invariant(gates, maxActive, b) && Honest(gates, exec, b)
    requires NothingSkipped(gates, b) && Drained(gates, b) && g in gates
    ensures g.id in b.states && (g.id in b.results <==> Clear(gates, exec, g.id))
    ensures g.id in b.results ==> b.results[g.id] == exec(g) && b.states[g.id] == Settled(exec(g).status)
    ensures g.id !in b.results ==> b.states[g.id] == Pending
  {
    DrainedPassedSet(gates, maxActive, exec, b);
    if g.id in b.results {
      PassedNeedsAreClear(gates, exec, PassedIds(b), g);
    } else {
      assert g.id !in RunningIds(b);
      if Clear(gates, exec, g.id) {
        ClearNeedsPass(gates, exec, PassedIds(b), g);
        assert NeedsPassed(g, b);
      }
    }
  }

  /** All runs drain into one and the same board. */
  lemma DrainedIsUnique(gates: seq<Gate>, max1: int, max2: int, exec: Gate -> GateResult, b1: Board, b2: Board)
    requires WellFormed(gates) && Invariant(gates, max1, b1) && Invariant(gates, max2, b2)
    requires Honest(gates, exec, b1) && NothingSkipped(gates, b1) && Drained(gates, b1)
    requires Honest(gates, exec, b2) && NothingSkipped(gates, b2) && Drained(gates, b2)
    ensures b1 == b2
  {
    forall id | id in ById(gates) ensures SameAt(b1, b2, id) {
      var g := ById(gates)[id];
      DrainedClosedForm(gates, max1, exec, b1, g);
      DrainedClosedForm(gates, max2, exec, b2, g);
    }
    SameBoard(b1, b2, ById(gates).Keys);
  }

  ghost predicate SameAt(b1: Board, b2: Board, id: Id) {
    && id in b1.states && id in b2.states && b1.states[id] == b2.states[id]
    && (id in b1.results <==> id in b2.results)
    && (id in b1.results && id in b2.results ==> b1.results[id] == b2.results[id])
  }

  lemma SameBoard(b1: Board, b2: Board, ids: set<Id>)
    requires b1.states.Keys == ids == b2.states.Keys
    requires b1.results.Keys <= ids && b2.results.Keys <= ids
    requires forall id | id in ids :: SameAt(b1, b2, id)
    ensures b1 == b2
  {
    assert b1.states == b2.states;
    forall id ensures id in b1.results <==> id in b2.results {
      assert id in ids ==> SameAt(b1, b2, id);
    }
    assert b1.results == b2.results;
  }

  /** The skipping phase is deterministic, messages included. */
  lemma {:induction false} SkipsAreDetermined(gates: seq<Gate>, max1: int, max2: int, b: Board, s1: seq<Event>,
                                              s2: seq<Event>)
    requires AllSkips(s1) && ValidRun(gates, max1, b, s1) && IsComplete(After(b, s1))
    requires AllSkips(s2) && ValidRun(gates, max2, b, s2) && IsComplete(After(b, s2))
    ensures s1 == s2
    decreases |s1|
  {
    if s1 != [] && s2 != [] {
      assert s1[0] in s1 && s2[0] in s2;
      assert s1[0] == s2[0];
      SkipsAreDetermined(gates, max1, max2, Apply(b, s1[0]), s1[1..], s2[1..]);
      assert s1 == [s1[0]] + s1[1..] && s2 == [s2[0]] + s2[1..];
    }
  }

  /** Any two complete runs, under any two concurrency limits and any settle orders,
      end with the same states and the same results, skip messages included. */
  lemma Confluence(gates: seq<Gate>, exec: Gate -> GateResult, max1: int, max2: int, run1: seq<Event>, run2: seq<Event>)
    requires WellFormed(gates) && max1 >= 1 && max2 >= 1
    requires ValidRun(gates, max1, Initial(gates), run1) && Executes(gates, exec, run1)
    requires ValidRun(gates, max2, Initial(gates), run2) && Executes(gates, exec, run2)
    requires IsComplete(After(Initial(gates), run1)) && IsComplete(After(Initial(gates), run2))
    ensures After(Initial(gates), run1) == After(Initial(gates), run2)
  {
    InitialInvariant(gates, max1);
    InitialInvariant(gates, max2);
    var d1, s1 := SplitAtDrain(gates, max1, exec, Initial(gates), run1);
    var d2, s2 := SplitAtDrain(gates, max2, exec, Initial(gates), run2);
    DrainedIsUnique(gates, max1, max2, exec, d1, d2);
    SkipsAreDetermined(gates, max1, max2, d1, s1, s2);
  }

  /** A complete run skips a gate exactly when something it transitively needs does
      not pass, and otherwise reports what the executor says. */
  lemma FinalStatuses(gates: seq<Gate>, exec: Gate -> GateResult, maxActive: int, run: seq<Event>, g: Gate)
    requires WellFormed(gates) && maxActive >= 1 && g in gates
    requires ValidRun(gates, maxActive, Initial(gates), run) && Executes(gates, exec, run)
    requires IsComplete(After(Initial(gates), run))
    ensures g.id in After(Initial(gates), run).results
    ensures var r := After(Initial(gates), run).results[g.id];
      && r.status == FinalStatus(gates, exec, g)
      && (Clear(gates, exec, g.id) ==> r == exec(g))
  {
    var b := After(Initial(gates), run);
    InitialInvariant(gates, maxActive);
    RunInvariant(gates, maxActive, Initial(gates), run);
    HonestRun(gates, maxActive, exec, Initial(gates), run);
    CompleteStatus(gates, maxActive, exec, b, g);
  }

  lemma CompletePassedSet(gates: seq<Gate>, maxActive: int, exec: Gate -> GateResult, b: Board)
    requires WellFormed(gates) && Invariant(gates, maxActive, b) && Honest(gates, exec, b) && IsComplete(b)
    ensures IsPassedSet(gates, exec, PassedIds(b))
  {
    forall h | h in gates ensures h.id in b.results && b.states[h.id] == Settled(b.results[h.id].status) {
      assert h.id in b.states;
    }
  }

  lemma CompleteStatus(gates: seq<Gate>, maxActive: int, exec: Gate -> GateResult, b: Board, g: Gate)
    requires WellFormed(gates) && Invariant(gates, maxActive, b) && Honest(gates, exec, b) && IsComplete(b)
      && g in gates
    ensures g.id in b.results && b.results[g.id].status == FinalStatus(gates, exec, g)
    ensures Clear(gates, exec, g.id) ==> b.results[g.id] == exec(g)
  {
    CompletePassedSet(gates, maxActive, exec, b);
    assert g.id in b.states;
    if NeedsPassed(g, b) {
      PassedNeedsAreClear(gates, exec, PassedIds(b), g);
    } else if Clear(gates, exec, g.id) {
      ClearNeedsPass(gates, exec, PassedIds(b), g);
    }
  }

  /** The exit-code rule of `main`. */
  function ExitCode(results: seq<GateResult>): int {
    if exists r | r in results :: !r.gate.allowFailure && (r.status == Failed || r.status == Skipped) then 1 else 0
  }

  /** `gates.map(gate => results.get(gate.id))`. */
  function Collect(gates: seq<Gate>, b: Board): seq<GateResult>
    requires forall g | g in gates :: g.id in b.results
  {
    seq(|gates|, i requires 0 <= i < |gates| => b.results[gates[i].id])
  }

  lemma ExitCodeOfCollected(gates: seq<Gate>, b: Board)
    requires forall g | g in gates :: g.id in b.results && b.results[g.id].gate == g
    ensures ExitCode(Collect(gates, b)) == 0
       <==> forall g | g in gates && !g.allowFailure :: b.results[g.id].status == Passed
  {
    var results := Collect(gates, b);
    forall g | g in gates ensures b.results[g.id] in results {
      var i :| 0 <= i < |gates| && gates[i] == g;
      assert results[i] == b.results[g.id];
    }
    forall r | r in results ensures exists g :: g in gates && r == b.results[g.id] {
      var i :| 0 <= i < |results| && results[i] == r;
      assert gates[i] in gates;
    }
  }

  lemma FinalGate(gates: seq<Gate>, exec: Gate -> GateResult, maxActive: int, run: seq<Event>, g: Gate)
    requires WellFormed(gates) && maxActive >= 1 && g in gates && exec(g).gate == g
    requires ValidRun(gates, maxActive, Initial(gates), run) && Executes(gates, exec, run)
    requires IsComplete(After(Initial(gates), run))
    ensures g.id in After(Initial(gates), run).results && After(Initial(gates), run).results[g.id].gate == g
  {
    InitialInvariant(gates, maxActive);
    HonestRun(gates, maxActive, exec, Initial(gates), run);
    FinalStatuses(gates, exec, maxActive, run, g);
  }

  /** The exit code is 0 exactly when every gate not allowed to fail passes and so does
      all it transitively needs; in particular no interleaving can change it. */
  lemma ExitCodeIsScheduleFree(gates: seq<Gate>, exec: Gate -> GateResult, maxActive: int, run: seq<Event>)
    requires WellFormed(gates) && maxActive >= 1
    requires ValidRun(gates, maxActive, Initial(gates), run) && Executes(gates, exec, run)
    requires IsComplete(After(Initial(gates), run))
    requires forall g | g in gates :: exec(g).gate == g
    ensures forall g | g in gates :: g.id in After(Initial(gates), run).results
    ensures ExitCode(Collect(gates, After(Initial(gates), run)))
         == if forall g | g in gates && !g.allowFailure :: FinalStatus(gates, exec, g) == Passed then 0 else 1
  {
    var b := After(Initial(gates), run);
    forall g | g in gates
      ensures g.id in b.results && b.results[g.id].gate == g
      ensures b.results[g.id].status == FinalStatus(gates, exec, g)
    {
      FinalStatuses(gates, exec, maxActive, run, g);
      FinalGate(gates, exec, maxActive, run, g);
    }
    ExitCodeOfCollected(gates, b);
  }

  // ---------------------------------------------------------------------------
  // The runner
  // ---------------------------------------------------------------------------

  datatype Outcome =
    | Finished(results: seq<GateResult>)
    | InvalidGraph(error: GraphError)
    | InvalidConcurrency(given: int)

  /** The runner's local variables agree with the events seen so far. */
  ghost predicate Synced(gates: seq<Gate>, maxActive: int, exec: Gate -> GateResult,
                         log: seq<Event>, board: Board, running: seq<Gate>)
  {
    && ValidRun(gates, maxActive, Initial(gates), log)
    && Executes(gates, exec, log)
    && After(Initial(gates), log) == board
    && RunningList(gates, board, running)
  }

  /** `running` lists the running gates, once each. */
  ghost predicate RunningList(gates: seq<Gate>, board: Board, running: seq<Gate>) {
    && |running| == |RunningIds(board)|
    && (forall k | 0 <= k < |running| :: running[k] in gates && running[k].id in RunningIds(board))
    && (forall j, k | 0 <= j < k < |running| :: running[j].id != running[k].id)
  }

  lemma SyncedInvariant(gates: seq<Gate>, maxActive: int, exec: Gate -> GateResult,
                        log: seq<Event>, board: Board, running: seq<Gate>)
    requires WellFormed(gates) && maxActive >= 1 && Synced(gates, maxActive, exec, log, board, running)
    ensures Invariant(gates, maxActive, board)
    ensures |log| <= 2 * |gates|
  {
    InitialInvariant(gates, maxActive);
    RunInvariant(gates, maxActive, Initial(gates), log);
    EveryRunTerminates(gates, maxActive, log);
  }

  lemma SyncedStep(gates: seq<Gate>, maxActive: int, exec: Gate -> GateResult,
                   log: seq<Event>, board: Board, running: seq<Gate>, e: Event, running': seq<Gate>)
    requires WellFormed(gates) && maxActive >= 1 && Synced(gates, maxActive, exec, log, board, running)
    requires Enabled(gates, maxActive, board, e) && Executes(gates, exec, [e])
    requires RunningList(gates, Apply(board, e), running')
    ensures Synced(gates, maxActive, exec, log + [e], Apply(board, e), running')
  {
    ValidAppend(gates, maxActive, Initial(gates), log, [e]);
    AfterAppend(Initial(gates), log, [e]);
    assert After(board, [e]) == Apply(board, e);
  }

  lemma ListStarts(gates: seq<Gate>, board: Board, running: seq<Gate>, g: Gate)
    requires RunningList(gates, board, running) && IsReady(g, board) && g in gates
    ensures RunningList(gates, Apply(board, Start(g.id)), running + [g])
  {
    assert RunningIds(Apply(board, Start(g.id))) == RunningIds(board) + {g.id};
  }

  lemma ListSettles(gates: seq<Gate>, board: Board, running: seq<Gate>, k: nat, r: GateResult)
    requires RunningList(gates, board, running) && k < |running|
    ensures RunningList(gates, Apply(board, Settle(running[k].id, r)), running[..k] + running[k + 1..])
  {
    assert RunningIds(Apply(board, Settle(running[k].id, r))) == RunningIds(board) - {running[k].id};
  }

  lemma ListSkips(gates: seq<Gate>, board: Board, id: Id, r: GateResult)
    requires RunningList(gates, board, [])
    ensures RunningList(gates, Apply(board, Skip(id, r)), [])
  {
    assert RunningIds(board) == {};
    assert RunningIds(Apply(board, Skip(id, r))) == {};
  }

  /** Starts ready gates while a slot is free. */
  method FillSlots(gates: seq<Gate>, maxActive: int, exec: Gate -> GateResult, log: seq<Event>, board: Board,
                   running: seq<Gate>)
    returns (log': seq<Event>, board': Board, running': seq<Gate>, madeProgress: bool)
    requires WellFormed(gates) && maxActive >= 1 && Synced(gates, maxActive, exec, log, board, running)
    ensures Synced(gates, maxActive, exec, log', board', running') && |log'| <= 2 * |gates|
    ensures if madeProgress then |log'| > |log| else log' == log && board' == board && running' == running
    ensures |running'| >= maxActive || FirstReady(gates, board').None?
  {
    log', board', running', madeProgress := log, board, running, false;
    SyncedInvariant(gates, maxActive, exec, log', board', running');
    while |running'| < maxActive
      invariant Synced(gates, maxActive, exec, log', board', running') && |log'| <= 2 * |gates|
      invariant if madeProgress then |log'| > |log| else log' == log && board' == board && running' == running
      decreases 2 * |gates| - |log'|
    {
      var ready := FirstReady(gates, board');
      if ready.None? { return; }
      var e := Start(ready.value.id);
      ListStarts(gates, board', running', ready.value);
      SyncedStep(gates, maxActive, exec, log', board', running', e, running' + [ready.value]);
      log', board', running' := log' + [e], Apply(board', e), running' + [ready.value];
      madeProgress := true;
      SyncedInvariant(gates, maxActive, exec, log', board', running');
    }
  }

  /** `Promise.race`: any running gate may settle first. */
  method AwaitOne(gates: seq<Gate>, maxActive: int, exec: Gate -> GateResult, log: seq<Event>, board: Board,
                  running: seq<Gate>)
    returns (log': seq<Event>, board': Board, running': seq<Gate>)
    requires WellFormed(gates) && maxActive >= 1 && Synced(gates, maxActive, exec, log, board, running)
    requires running != [] && (|running| >= maxActive || FirstReady(gates, board).None?)
    ensures Synced(gates, maxActive, exec, log', board', running') && |log'| == |log| + 1 <= 2 * |gates|
  {
    var k :| 0 <= k < |running|;
    var settled := exec(running[k]);
    var e := Settle(running[k].id, settled);
    ByIdUnique(gates, running[k]);
    ListSettles(gates, board, running, k, settled);
    SyncedStep(gates, maxActive, exec, log, board, running, e, running[..k] + running[k + 1..]);
    log', board', running' := log + [e], Apply(board, e), running[..k] + running[k + 1..];
    SyncedInvariant(gates, maxActive, exec, log', board', running');
  }

  /** The events are a valid, complete run, and the results are its results in list order. */
  ghost predicate RanToEnd(gates: seq<Gate>, maxActive: int, exec: Gate -> GateResult, log: seq<Event>,
                           results: seq<GateResult>)
  {
    && ValidRun(gates, maxActive, Initial(gates), log)
    && Executes(gates, exec, log)
    && IsComplete(After(Initial(gates), log))
    && |results| == |gates|
    && forall i | 0 <= i < |gates| ::
         && gates[i].id in After(Initial(gates), log).results
         && results[i] == After(Initial(gates), log).results[gates[i].id]
  }

  lemma SyncedAtStart(gates: seq<Gate>, maxActive: int, exec: Gate -> GateResult)
    ensures Synced(gates, maxActive, exec, [], Initial(gates), [])
  {
    assert RunningIds(Initial(gates)) == {};
  }

  lemma EndOfRun(gates: seq<Gate>, maxActive: int, exec: Gate -> GateResult, log: seq<Event>, board: Board)
    requires Synced(gates, maxActive, exec, log, board, []) && IsComplete(board)
    requires forall g | g in gates :: g.id in board.results
    ensures RanToEnd(gates, maxActive, exec, log, Collect(gates, board))
  {
  }

  /**
   * Runs a gate list. The log holds the start lines and the observer calls in order.
   * A well-formed list is executed along a valid, complete run, so all that holds of
   * every such run holds of this one; nothing is started otherwise.
   */
  method RunGates(gates: seq<Gate>, maxActive: int, exec: Gate -> GateResult)
    returns (outcome: Outcome, log: seq<Event>)
    ensures outcome.InvalidGraph? <==> !WellFormed(gates)
    ensures outcome.InvalidGraph? ==> Explains(gates, outcome.error)
    ensures outcome.InvalidConcurrency? <==> WellFormed(gates) && !(1 <= maxActive <= MAX_SAFE_INTEGER)
    ensures !outcome.Finished? ==> log == []
    ensures outcome.Finished? ==> RanToEnd(gates, maxActive, exec, log, outcome.results)
  {
    var error := ValidateGateGraph(gates);
    if error.Some? { return InvalidGraph(error.value), []; }
    if maxActive < 1 || maxActive > MAX_SAFE_INTEGER { return InvalidConcurrency(maxActive), []; }
    var results;
    results, log := RunLoop(gates, maxActive, exec);
    return Finished(results), log;
  }

  method RunLoop(gates: seq<Gate>, maxActive: int, exec: Gate -> GateResult)
    returns (results: seq<GateResult>, log: seq<Event>)
    requires WellFormed(gates) && maxActive >= 1
    ensures RanToEnd(gates, maxActive, exec, log, results)
  {
    log := [];
    var board, running: seq<Gate> := Initial(gates), [];
    SyncedAtStart(gates, maxActive, exec);
    while true
      invariant Synced(gates, maxActive, exec, log, board, running) && |log| <= 2 * |gates|
      decreases 2 * |gates| - |log|
    {
      var madeProgress;
      log, board, running, madeProgress := FillSlots(gates, maxActive, exec, log, board, running);
      if |running| == 0 {
        log, board := SkipBlocked(gates, maxActive, exec, log, board);
        EndOfRun(gates, maxActive, exec, log, board);
        return Collect(gates, board), log;
      }
      if !madeProgress {
        log, board, running := AwaitOne(gates, maxActive, exec, log, board, running);
      }
    }
  }

  function PendingGates(gates: seq<Gate>, b: Board): seq<Gate> {
    Filter(gates, (g: Gate) => g.id in b.states && b.states[g.id] == Pending)
  }

  function FirstOverBadNeed(pending: seq<Gate>, b: Board): Option<Gate> {
    Find(pending, (g: Gate) => exists d | d in g.needs :: IsBad(b, d))
  }

  function Without(pending: seq<Gate>, g: Gate): seq<Gate> {
    Filter(pending, (h: Gate) => h != g)
  }

  /** Searching the pending list finds what searching the whole list finds. */
  lemma {:induction false} PendingSearch(gates: seq<Gate>, b: Board)
    ensures FirstOverBadNeed(PendingGates(gates, b), b) == FirstBlocked(gates, b)
  {
    if gates != [] {
      PendingSearch(gates[1..], b);
      var g := gates[0];
      if g.id in b.states && b.states[g.id] == Pending {
        assert PendingGates(gates, b) == [g] + PendingGates(gates[1..], b);
        assert PendingGates(gates, b)[1..] == PendingGates(gates[1..], b);
      } else {
        assert PendingGates(gates, b) == PendingGates(gates[1..], b);
      }
    }
  }

  lemma {:induction false} PendingShrinks(gates: seq<Gate>, b: Board, g: Gate, r: GateResult)
    requires g.id in b.states && forall h | h in gates && h.id == g.id :: h == g
    ensures PendingGates(gates, Apply(b, Skip(g.id, r))) == Without(PendingGates(gates, b), g)
    ensures g in PendingGates(gates, b) ==> |Without(PendingGates(gates, b), g)| < |PendingGates(gates, b)|
    ensures |Without(PendingGates(gates, b), g)| <= |PendingGates(gates, b)|
  {
    if gates != [] {
      PendingShrinks(gates[1..], b, g, r);
      var h := gates[0];
      if h.id in b.states && b.states[h.id] == Pending {
        assert PendingGates(gates, b) == [h] + PendingGates(gates[1..], b);
        assert PendingGates(gates, b)[1..] == PendingGates(gates[1..], b);
      } else {
        assert PendingGates(gates, b) == PendingGates(gates[1..], b);
      }
    }
  }

  lemma SkipKeepsDrained(gates: seq<Gate>, b: Board, id: Id, r: GateResult)
    requires FirstReady(gates, b).None?
    ensures FirstReady(gates, Apply(b, Skip(id, r))).None?
  {
    var b' := Apply(b, Skip(id, r));
    forall g | g in gates ensures !IsReady(g, b') {
      assert !IsReady(g, b);
    }
  }

  lemma PendingGateIsPending(gates: seq<Gate>, b: Board)
    requires PendingGates(gates, b) != []
    ensures PendingIds(b) != {}
  {
    var g := PendingGates(gates, b)[0];
    assert g in PendingGates(gates, b);
    assert g.id in PendingIds(b);
  }

  lemma NoPendingIsComplete(gates: seq<Gate>, maxActive: int, b: Board)
    requires Bookkeeping(gates, maxActive, b) && RunningList(gates, b, []) && PendingGates(gates, b) == []
    ensures IsComplete(b) && forall g | g in gates :: g.id in b.results
  {
    assert RunningIds(b) == {};
    forall id | id in b.states ensures b.states[id].Settled? {
      assert id !in RunningIds(b);
      assert ById(gates)[id] !in PendingGates(gates, b);
    }
  }

  /** What holds before each turn of the skipping loop. */
  ghost predicate Skipping(gates: seq<Gate>, maxActive: int, exec: Gate -> GateResult,
                           log: seq<Event>, board: Board, pending: seq<Gate>)
  {
    && Synced(gates, maxActive, exec, log, board, [])
    && FirstReady(gates, board).None?
    && pending == PendingGates(gates, board)
  }

  lemma SkippingFinds(gates: seq<Gate>, maxActive: int, exec: Gate -> GateResult,
                      log: seq<Event>, board: Board, pending: seq<Gate>)
    requires WellFormed(gates) && maxActive >= 1 && Skipping(gates, maxActive, exec, log, board, pending)
    requires pending != []
    ensures FirstOverBadNeed(pending, board).Some?
    ensures FirstOverBadNeed(pending, board) == FirstBlocked(gates, board)
  {
    SyncedInvariant(gates, maxActive, exec, log, board, []);
    PendingGateIsPending(gates, board);
    assert RunningIds(board) == {};
    DrainedHasBlocked(gates, board);
    PendingSearch(gates, board);
  }

  lemma SkippingStep(gates: seq<Gate>, maxActive: int, exec: Gate -> GateResult,
                     log: seq<Event>, board: Board, pending: seq<Gate>, g: Gate)
    requires WellFormed(gates) && maxActive >= 1 && Skipping(gates, maxActive, exec, log, board, pending)
    requires FirstBlocked(gates, board) == Some(g)
    ensures var e := Skip(g.id, SkipResult(g, board));
      Skipping(gates, maxActive, exec, log + [e], Apply(board, e), Without(pending, g))
    ensures |Without(pending, g)| < |pending|
  {
    var e := Skip(g.id, SkipResult(g, board));
    assert RunningIds(board) == {};
    ByIdUnique(gates, g);
    PendingShrinks(gates, board, g, e.result);
    SkipKeepsDrained(gates, board, g.id, e.result);
    ListSkips(gates, board, g.id, e.result);
    SyncedStep(gates, maxActive, exec, log, board, [], e, []);
  }

  /** The drained board's pending gates are skipped, each over a named bad dependency. */
  method SkipBlocked(gates: seq<Gate>, maxActive: int, exec: Gate -> GateResult, log: seq<Event>, board: Board)
    returns (log': seq<Event>, board': Board)
    requires WellFormed(gates) && maxActive >= 1 && Synced(gates, maxActive, exec, log, board, [])
    requires FirstReady(gates, board).None?
    ensures Synced(gates, maxActive, exec, log', board', []) && IsComplete(board')
    ensures forall g | g in gates :: g.id in board'.results
  {
    log', board' := log, board;
    var pending := PendingGates(gates, board);
    while |pending| > 0
      invariant Skipping(gates, maxActive, exec, log', board', pending)
      decreases |pending|
    {
      SkippingFinds(gates, maxActive, exec, log', board', pending);
      var found := FirstOverBadNeed(pending, board');
      if found.None? {
        // "validated graph stalled without a failed dependency" is unreachable.
        assert false;
      }
      var g := found.value;
      SkippingStep(gates, maxActive, exec, log', board', pending, g);
      var e := Skip(g.id, SkipResult(g, board'));
      log', board', pending := log' + [e], Apply(board', e), Without(pending, g);
    }
    SyncedInvariant(gates, maxActive, exec, log', board', []);
    NoPendingIsComplete(gates, maxActive, board');
  }
}
