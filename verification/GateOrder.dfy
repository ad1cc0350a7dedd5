/**
 * The order of events of the gate runner of scripts/run-gates.ts, told from the events alone: which
 * gate starts next, which one is skipped next, and what a skip reports.
 */
module GateOrder {
  import opened Basics
  import opened Texts
  import opened GateGraph
  import opened GateScheduler

  /** The gate was started or skipped. */
  ghost predicate Touched(log: seq<Event>, id: Id) {
    exists e :: e in log && e.id == id
  }

  /** A result of this status was reported for the gate. */
  ghost predicate Reported(log: seq<Event>, id: Id, status: Status) {
    exists e :: e in log && !e.Start? && e.id == id && e.result.status == status
  }

  ghost predicate MayStart(log: seq<Event>, g: Gate) {
    !Touched(log, g.id) && forall d | d in g.needs :: Reported(log, d, Passed)
  }

  ghost predicate Spoilt(log: seq<Event>, id: Id) {
    Reported(log, id, Failed) || Reported(log, id, Skipped)
  }

  ghost predicate MustSkip(log: seq<Event>, g: Gate) {
    !Touched(log, g.id) && exists d :: d in g.needs && Spoilt(log, d)
  }

  /** The board shows what was reported. */
  ghost predicate Shows(b: Board, log: seq<Event>, id: Id) {
    && id in b.states
    && (b.states[id].Pending? <==> !Touched(log, id))
    && (forall status :: b.states[id] == Settled(status) <==> Reported(log, id, status))
  }

  lemma StepShows(gates: seq<Gate>, maxActive: int, b: Board, log: seq<Event>, e: Event, id: Id)
    requires Enabled(gates, maxActive, b, e) && Shows(b, log, id)
    ensures Shows(Apply(b, e), log + [e], id)
  {
    var more := log + [e];
    assert e in more && forall x | x in log :: x in more;
    if e.id != id {
      assert Touched(more, id) <==> Touched(log, id);
      assert forall status :: Reported(more, id, status) <==> Reported(log, id, status);
    } else {
      assert Touched(more, id);
      assert forall status :: Reported(log, id, status) ==> Touched(log, id);
    }
  }

  lemma {:induction false} RunShows(gates: seq<Gate>, maxActive: int, b: Board, log: seq<Event>, run: seq<Event>,
                                    id: Id)
    requires ValidRun(gates, maxActive, b, run) && Shows(b, log, id)
    ensures Shows(After(b, run), log + run, id)
    decreases |run|
  {
    if run == [] {
      assert log + run == log;
    } else {
      StepShows(gates, maxActive, b, log, run[0], id);
      RunShows(gates, maxActive, Apply(b, run[0]), log + [run[0]], run[1..], id);
      assert log + [run[0]] + run[1..] == log + run;
    }
  }

  /** What the board says of every gate, after the first `k` events of a run. */
  ghost predicate ShowsAll(gates: seq<Gate>, b: Board, log: seq<Event>) {
    forall g | g in gates :: Shows(b, log, g.id) && forall d | d in g.needs :: Shows(b, log, d)
  }

  lemma BoardShows(gates: seq<Gate>, maxActive: int, log: seq<Event>)
    requires KnownNeeds(gates) && ValidRun(gates, maxActive, Initial(gates), log)
    ensures ShowsAll(gates, After(Initial(gates), log), log)
  {
    forall id | id in ById(gates) ensures Shows(After(Initial(gates), log), log, id) {
      RunShows(gates, maxActive, Initial(gates), [], log, id);
      assert [] + log == log;
    }
    forall g, d | g in gates && d in g.needs ensures d in ById(gates) {
      NeedKnown(gates, g, d);
    }
  }

  lemma GateShows(gates: seq<Gate>, b: Board, log: seq<Event>, g: Gate)
    requires ShowsAll(gates, b, log) && g in gates
    ensures IsReady(g, b) <==> MayStart(log, g)
    ensures IsBlocked(g, b) <==> MustSkip(log, g)
    ensures forall d | d in g.needs :: IsBad(b, d) <==> Spoilt(log, d)
  {
    assert Shows(b, log, g.id);
    forall d | d in g.needs
      ensures IsBad(b, d) <==> Spoilt(log, d)
      ensures d in b.states && (b.states[d] == Settled(Passed) <==> Reported(log, d, Passed))
    {
      assert Shows(b, log, d);
    }
  }

  // ---------------------------------------------------------------------------
  // Every run follows the list
  // ---------------------------------------------------------------------------

  /** The first gate of the list that may start. */
  ghost predicate StartsNext(gates: seq<Gate>, log: seq<Event>, id: Id) {
    exists p | 0 <= p < |gates| ::
      gates[p].id == id && MayStart(log, gates[p]) && forall q | 0 <= q < p :: !MayStart(log, gates[q])
  }

  /** The first gate of the list that must be skipped, with the needs that are to blame, in order. */
  ghost predicate SkipsNext(gates: seq<Gate>, log: seq<Event>, id: Id, result: GateResult) {
    exists p | 0 <= p < |gates| ::
      && gates[p].id == id && MustSkip(log, gates[p]) && (forall q | 0 <= q < p :: !MustSkip(log, gates[q]))
      && Blames(gates[p], log, result)
  }

  ghost predicate Blames(g: Gate, log: seq<Event>, result: GateResult) {
    exists blamed: seq<Id>, places: seq<nat> ::
      && AreSpoilt(g, log, blamed, places)
      && result == GateResult(g, Skipped, 0, None, Some("dependency failed or skipped: " + Listed(blamed)))
  }

  /** The failed and skipped needs of the gate and their places, in order. */
  ghost predicate AreSpoilt(g: Gate, log: seq<Event>, blamed: seq<Id>, places: seq<nat>) {
    && |blamed| == |places|
    && (forall k | 0 <= k < |places| :: places[k] < |g.needs| && blamed[k] == g.needs[places[k]])
    && (forall j, k | 0 <= j < k < |places| :: places[j] < places[k])
    && forall i | 0 <= i < |g.needs| :: Spoilt(log, g.needs[i]) <==> i in places
  }

  /** Names separated by commas. */
  function Listed(ids: seq<Id>): string {
    match |ids|
    case 0 => ""
    case 1 => ids[0].text
    case _ => Listed(ids[..|ids| - 1]) + ", " + ids[|ids| - 1].text
  }

  lemma {:induction false} JoinedBehind(parts: seq<string>, last: string, separator: string)
    requires parts != []
    ensures JoinWith(parts + [last], separator) == JoinWith(parts, separator) + separator + last
  {
    if |parts| > 1 {
      assert (parts + [last])[1..] == parts[1..] + [last];
      JoinedBehind(parts[1..], last, separator);
      assert parts[0] + separator + (JoinWith(parts[1..], separator) + separator + last)
          == parts[0] + separator + JoinWith(parts[1..], separator) + separator + last;
    } else {
      assert (parts + [last])[1..] == [last];
    }
  }

  lemma {:induction false} JoinIsListed(ids: seq<Id>)
    ensures JoinWith(IdTexts(ids), ", ") == Listed(ids)
  {
    if |ids| > 1 {
      var front := ids[..|ids| - 1];
      JoinIsListed(front);
      assert IdTexts(ids) == IdTexts(front) + [ids[|ids| - 1].text];
      JoinedBehind(IdTexts(front), ids[|ids| - 1].text, ", ");
    }
  }

  lemma SkipBlames(gates: seq<Gate>, b: Board, log: seq<Event>, g: Gate)
    requires ShowsAll(gates, b, log) && g in gates
    ensures Blames(g, log, SkipResult(g, b))
  {
    var bad := Filter(g.needs, d => IsBad(b, d));
    var places := FilterSelects(g.needs, d => IsBad(b, d));
    GateShows(gates, b, log, g);
    JoinIsListed(bad);
    assert forall i | 0 <= i < |g.needs| :: g.needs[i] in g.needs;
    assert AreSpoilt(g, log, bad, places);
  }

  lemma FirstStarts(gates: seq<Gate>, b: Board, log: seq<Event>)
    requires ShowsAll(gates, b, log)
    ensures FirstReady(gates, b).Some? ==> StartsNext(gates, log, FirstReady(gates, b).value.id)
    ensures FirstReady(gates, b).None? ==> forall g | g in gates :: !MayStart(log, g)
  {
    forall g | g in gates ensures IsReady(g, b) <==> MayStart(log, g) {
      GateShows(gates, b, log, g);
    }
    if FirstReady(gates, b).Some? {
      var p := FindIsFirst(gates, g => IsReady(g, b));
      assert forall q | 0 <= q <= p :: gates[q] in gates;
    }
  }

  lemma FirstSkips(gates: seq<Gate>, b: Board, log: seq<Event>)
    requires ShowsAll(gates, b, log) && FirstBlocked(gates, b).Some?
    ensures SkipsNext(gates, log, FirstBlocked(gates, b).value.id, SkipResult(FirstBlocked(gates, b).value, b))
  {
    forall g | g in gates ensures IsBlocked(g, b) <==> MustSkip(log, g) {
      GateShows(gates, b, log, g);
    }
    var p := FindIsFirst(gates, g => IsBlocked(g, b));
    assert forall q | 0 <= q <= p :: gates[q] in gates;
    SkipBlames(gates, b, log, gates[p]);
  }

  /** Every run takes gates in the order of the list: a start is the first gate that may start, a skip
      is the first one that must be skipped and blames exactly its failed and skipped needs, in order,
      and settling waits until no slot is free or no gate may start. */
  lemma RunsFollowTheList(gates: seq<Gate>, maxActive: int, run: seq<Event>, k: nat)
    requires WellFormed(gates) && ValidRun(gates, maxActive, Initial(gates), run) && k < |run|
    ensures match run[k]
      case Start(id) => StartsNext(gates, run[..k], id)
      case Settle(_, _) =>
        |RunningIds(After(Initial(gates), run[..k]))| < maxActive ==> forall g | g in gates :: !MayStart(run[..k], g)
      case Skip(id, result) =>
        SkipsNext(gates, run[..k], id, result) && forall g | g in gates :: !MayStart(run[..k], g)
  {
    var now := After(Initial(gates), run[..k]);
    PrefixIsValid(gates, maxActive, Initial(gates), run, k);
    BoardShows(gates, maxActive, run[..k]);
    FirstStarts(gates, now, run[..k]);
    if run[k].Skip? { FirstSkips(gates, now, run[..k]); }
  }
}
