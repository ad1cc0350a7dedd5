/**
 * Cycles of the path walk of scripts/gen-config-catalog.ts that take steps off the path as well as
 * put steps on it, as in `interface A { x: A['x']['x'] }`: exactly when the walk never ends.
 */
module PathCycles {
  import opened Basics
  import opened TypeLookup
  import opened TypeTermination

  // ---------------------------------------------------------------------------
  // Moves on the front of a path
  // ---------------------------------------------------------------------------

  /** Where a walk stands, with the front of the path; what follows the front does not matter. */
  datatype Place = Place(site: Site, front: seq<PathStep>)

  /** The only place where the walk can go next; it may have to look at the first step of the front. */
  function Move(w: World, p: Place): Option<Place> {
    var turn := TurnOf(w, p.site);
    if turn.Some? then Some(Place(turn.value.site, turn.value.pushed + p.front))
    else if p.front == [] then None
    else match WalkShape(w, p.site, p.front + [ArrayHop])
         case Go(next, _) => Some(Place(next, p.front[1..]))
         case _ => None
  }

  lemma MoveIsWalked(w: World, p: Place, rest: seq<PathStep>)
    requires Move(w, p).Some? && rest != []
    ensures var next := Move(w, p).value; WalkShape(w, p.site, p.front + rest) == Go(next.site, next.front + rest)
    ensures p.site.DeclAt? ==> Guarded(w, p.site)
  {
    var turn := TurnOf(w, p.site);
    if turn.Some? {
      TurnIsWalked(w, p.site, p.front + rest);
      assert turn.value.pushed + (p.front + rest) == turn.value.pushed + p.front + rest;
    } else {
      StepIsTaken(w, p.site, p.front, [ArrayHop]);
      StepIsTaken(w, p.site, p.front, rest);
    }
  }

  /** A site that takes a step off the path looks at that step only. */
  lemma StepIsTaken(w: World, site: Site, front: seq<PathStep>, rest: seq<PathStep>)
    requires TurnOf(w, site).None? && front != [] && rest != []
    ensures WalkShape(w, site, front + rest).Go? <==> WalkShape(w, site, [front[0], ArrayHop]).Go?
    ensures WalkShape(w, site, front + rest).Go? ==>
      WalkShape(w, site, front + rest) == Go(WalkShape(w, site, [front[0], ArrayHop]).site, front[1..] + rest)
  {
    assert (front + rest)[1..] == front[1..] + rest;
    assert [front[0], ArrayHop][1..] == [ArrayHop];
  }

  lemma MoveWithMore(w: World, p: Place, more: seq<PathStep>)
    requires Move(w, p).Some?
    ensures var next := Move(w, p).value;
      Move(w, Place(p.site, p.front + more)) == Some(Place(next.site, next.front + more))
  {
    var turn := TurnOf(w, p.site);
    if turn.Some? {
      assert turn.value.pushed + (p.front + more) == turn.value.pushed + p.front + more;
    } else {
      MoveIsWalked(w, p, more + [ArrayHop]);
      assert p.front + (more + [ArrayHop]) == p.front + more + [ArrayHop];
      assert (p.front + more)[1..] == p.front[1..] + more;
    }
  }

  function After(w: World, p: Place, t: nat): Option<Place>
    decreases t
  {
    if t == 0 then Some(p)
    else match Move(w, p)
         case None => None
         case Some(next) => After(w, next, t - 1)
  }

  lemma {:induction false} AfterAdd(w: World, p: Place, s: nat, t: nat)
    requires After(w, p, s).Some?
    ensures After(w, p, s + t) == After(w, After(w, p, s).value, t)
    decreases s
  {
    if s > 0 { AfterAdd(w, Move(w, p).value, s - 1, t); }
  }

  lemma {:induction false} AfterMore(w: World, p: Place, more: seq<PathStep>, t: nat)
    requires After(w, p, t).Some?
    ensures var end := After(w, p, t).value;
      After(w, Place(p.site, p.front + more), t) == Some(Place(end.site, end.front + more))
    decreases t
  {
    if t > 0 {
      MoveWithMore(w, p, more);
      AfterMore(w, Move(w, p).value, more, t - 1);
    }
  }

  lemma {:induction false} AfterEarlier(w: World, p: Place, s: nat, t: nat)
    requires After(w, p, t).Some? && s <= t
    ensures After(w, p, s).Some?
    decreases s
  {
    if s > 0 { AfterEarlier(w, Move(w, p).value, s - 1, t - 1); }
  }

  /** After `n` moves the walk is back at the site and the front, with more behind it. */
  predicate IsRound(w: World, p: Place, n: nat, more: seq<PathStep>) {
    n > 0 && After(w, p, n) == Some(Place(p.site, p.front + more))
  }

  /** A round later everything is the same but for the longer path. */
  lemma {:induction false} RoundGoesOn(w: World, p: Place, n: nat, more: seq<PathStep>, t: nat)
    requires IsRound(w, p, n, more)
    ensures After(w, p, t).Some?
    ensures var now := After(w, p, t).value; After(w, p, t + n) == Some(Place(now.site, now.front + more))
    decreases t
  {
    if t < n {
      AfterEarlier(w, p, t, n);
    } else {
      RoundGoesOn(w, p, n, more, t - n);
    }
    AfterAdd(w, p, n, t);
    AfterMore(w, p, more, t);
  }

  // ---------------------------------------------------------------------------
  // What the guard sees
  // ---------------------------------------------------------------------------

  /** The declaration the walk is at after `t` moves, if any, with the length of the front. */
  function KeyAfter(w: World, p: Place, t: nat): Option<Key> {
    match After(w, p, t)
    case None => None
    case Some(q) => if q.site.DeclAt? then Some((q.site.id, |q.front|)) else None
  }

  /** `k` rounds later the front is longer by what `k` rounds add. */
  lemma {:induction false} KeyRounds(w: World, p: Place, n: nat, more: seq<PathStep>, k: nat, i: nat)
    requires IsRound(w, p, n, more)
    ensures After(w, p, i).Some? && After(w, p, i + k * n).Some?
    ensures KeyAfter(w, p, i).None? <==> KeyAfter(w, p, i + k * n).None?
    ensures KeyAfter(w, p, i).Some? ==>
      KeyAfter(w, p, i + k * n) == Some((KeyAfter(w, p, i).value.0, KeyAfter(w, p, i).value.1 + k * |more|))
    decreases k
  {
    RoundGoesOn(w, p, n, more, i);
    if k > 0 {
      KeyRounds(w, p, n, more, k - 1, i);
      RoundGoesOn(w, p, n, more, i + (k - 1) * n);
      OneMore(k - 1, n);
      OneMore(k - 1, |more|);
    }
  }

  lemma OneMore(k: nat, n: nat)
    ensures k * n + n == (k + 1) * n
  {
  }

  ghost predicate Distinct(w: World, p: Place, t: nat) {
    forall i, j | 0 <= i < j < t && KeyAfter(w, p, i).Some? :: KeyAfter(w, p, i) != KeyAfter(w, p, j)
  }

  ghost predicate Apart(w: World, p: Place, length: nat, seen: set<Key>, t: nat) {
    forall j | 0 <= j < t && KeyAfter(w, p, j).Some? ::
      (KeyAfter(w, p, j).value.0, KeyAfter(w, p, j).value.1 + length) !in seen
  }

  /** The walk makes `t` moves without being stopped by the guard. */
  ghost predicate Free(w: World, p: Place, rest: seq<PathStep>, seen: set<Key>, t: nat)
    decreases t
  {
    t == 0 ||
    (Move(w, p).Some? && !Revisited(w, p.site, p.front + rest, seen)
     && Free(w, Move(w, p).value, rest, Marked(w, p.site, p.front + rest, seen), t - 1))
  }

  lemma KeyNext(w: World, p: Place, t: nat)
    requires Move(w, p).Some?
    ensures KeyAfter(w, p, t + 1) == KeyAfter(w, Move(w, p).value, t)
  {
  }

  /** The keys behind the first move are still new. */
  lemma StillClear(w: World, p: Place, rest: seq<PathStep>, seen: set<Key>, t: nat)
    requires t > 0 && rest != [] && Move(w, p).Some? && Distinct(w, p, t) && Apart(w, p, |rest|, seen, t)
    ensures var next, marked := Move(w, p).value, Marked(w, p.site, p.front + rest, seen);
      Distinct(w, next, t - 1) && Apart(w, next, |rest|, marked, t - 1)
  {
    var next, marked := Move(w, p).value, Marked(w, p.site, p.front + rest, seen);
    assert KeyAfter(w, p, 0) == if p.site.DeclAt? then Some((p.site.id, |p.front|)) else None;
    forall i, j | 0 <= i < j < t - 1 && KeyAfter(w, next, i).Some?
      ensures KeyAfter(w, next, i) != KeyAfter(w, next, j)
    {
      KeyNext(w, p, i);
      KeyNext(w, p, j);
    }
    forall j | 0 <= j < t - 1 && KeyAfter(w, next, j).Some?
      ensures (KeyAfter(w, next, j).value.0, KeyAfter(w, next, j).value.1 + |rest|) !in marked
    {
      KeyNext(w, p, j);
      assert KeyAfter(w, p, 0) != KeyAfter(w, p, j + 1);
    }
  }

  lemma {:induction false} FreeWhenDistinct(w: World, p: Place, rest: seq<PathStep>, seen: set<Key>, t: nat)
    requires After(w, p, t).Some? && rest != [] && Distinct(w, p, t) && Apart(w, p, |rest|, seen, t)
    ensures Free(w, p, rest, seen, t)
    decreases t
  {
    if t > 0 {
      var next, marked := Move(w, p).value, Marked(w, p.site, p.front + rest, seen);
      assert KeyAfter(w, p, 0) == if p.site.DeclAt? then Some((p.site.id, |p.front|)) else None;
      StillClear(w, p, rest, seen, t);
      FreeWhenDistinct(w, next, rest, marked, t - 1);
    }
  }

  /** An unstopped walk uses up the stack. */
  lemma {:induction false} FreeOverflows(w: World, p: Place, rest: seq<PathStep>, seen: set<Key>, t: nat)
    requires Free(w, p, rest, seen, t) && rest != []
    ensures Lookup(w, p.site, p.front + rest, seen, t).verdict == Overflow
    decreases t
  {
    if t > 0 {
      MoveIsWalked(w, p, rest);
      FreeOverflows(w, Move(w, p).value, rest, Marked(w, p.site, p.front + rest, seen), t - 1);
    }
  }

  /** The guard stops a walk at a key that it has seen, or has met on the way. */
  lemma {:induction false} StoppedIsUnknown(w: World, p: Place, rest: seq<PathStep>, seen: set<Key>, t: nat, depth: nat)
    requires Free(w, p, rest, seen, t) && rest != [] && After(w, p, t + 1).Some? && KeyAfter(w, p, t).Some? && depth > t
    requires !Distinct(w, p, t + 1) || !Apart(w, p, |rest|, seen, t + 1)
    requires Distinct(w, p, t) && Apart(w, p, |rest|, seen, t)
    ensures Lookup(w, p.site, p.front + rest, seen, depth).verdict == Unknown
    decreases t
  {
    MoveIsWalked(w, p, rest);
    assert KeyAfter(w, p, 0) == if p.site.DeclAt? then Some((p.site.id, |p.front|)) else None;
    if t > 0 {
      var next, marked := Move(w, p).value, Marked(w, p.site, p.front + rest, seen);
      StillClear(w, p, rest, seen, t);
      StillStopped(w, p, rest, seen, t);
      StoppedIsUnknown(w, next, rest, marked, t - 1, depth - 1);
    }
  }

  lemma StillStopped(w: World, p: Place, rest: seq<PathStep>, seen: set<Key>, t: nat)
    requires t > 0 && rest != [] && Move(w, p).Some? && KeyAfter(w, p, t).Some?
    requires !Distinct(w, p, t + 1) || !Apart(w, p, |rest|, seen, t + 1)
    requires Distinct(w, p, t) && Apart(w, p, |rest|, seen, t)
    ensures var next, marked := Move(w, p).value, Marked(w, p.site, p.front + rest, seen);
      KeyAfter(w, next, t - 1).Some? && (!Distinct(w, next, t) || !Apart(w, next, |rest|, marked, t))
  {
    var next, marked := Move(w, p).value, Marked(w, p.site, p.front + rest, seen);
    MoveIsWalked(w, p, rest);
    KeyNext(w, p, t - 1);
    assert KeyAfter(w, p, 0) == if p.site.DeclAt? then Some((p.site.id, |p.front|)) else None;
    if !Distinct(w, p, t + 1) {
      var i :| 0 <= i < t && KeyAfter(w, p, i) == KeyAfter(w, p, t);
      if i > 0 {
        KeyNext(w, p, i - 1);
        RepeatIsNotDistinct(w, next, i - 1, t - 1);
      } else {
        assert !Apart(w, next, |rest|, marked, t);
      }
    } else {
      assert !Apart(w, next, |rest|, marked, t);
    }
  }

  // ---------------------------------------------------------------------------
  // Exactly when a round never ends
  // ---------------------------------------------------------------------------

  /** In the same round, or `k` rounds later, the walk comes to a declaration with a path as long as
      it had there before. */
  ghost predicate MeetsItself(w: World, p: Place, n: nat, gain: nat) {
    exists i, j, k | 0 <= i < n && 0 <= j < n && 0 <= k :: MeetsAt(w, p, gain, i, j, k)
  }

  ghost predicate MeetsAt(w: World, p: Place, gain: nat, i: nat, j: nat, k: nat) {
    && (k > 0 || i < j) && KeyAfter(w, p, i).Some? && KeyAfter(w, p, j).Some?
    && KeyAfter(w, p, i) == Some((KeyAfter(w, p, j).value.0, KeyAfter(w, p, j).value.1 + k * gain))
  }

  lemma MeetingIsRepeated(w: World, p: Place, n: nat, more: seq<PathStep>, i: nat, j: nat, k: nat)
    requires IsRound(w, p, n, more) && i < n && j < n && MeetsAt(w, p, |more|, i, j, k)
    ensures !Distinct(w, p, j + k * n + 1)
  {
    KeyRounds(w, p, n, more, k, j);
    if k > 0 { Multiples(1, k, n); }
    RepeatIsNotDistinct(w, p, i, j + k * n);
  }

  lemma RepeatIsNotDistinct(w: World, p: Place, s: nat, t: nat)
    requires s < t && KeyAfter(w, p, s).Some? && KeyAfter(w, p, s) == KeyAfter(w, p, t)
    ensures !Distinct(w, p, t + 1)
  {
  }

  lemma RepeatedIsMeeting(w: World, p: Place, n: nat, more: seq<PathStep>, s: nat, t: nat)
    requires IsRound(w, p, n, more) && s < t && KeyAfter(w, p, s).Some? && KeyAfter(w, p, s) == KeyAfter(w, p, t)
    ensures MeetsItself(w, p, n, |more|)
  {
    var a, i := InRound(s, n);
    var b, j := InRound(t, n);
    if b < a { EarlierRound(n, b, j, a, i); }
    KeyRounds(w, p, n, more, a, i);
    KeyRounds(w, p, n, more, b, j);
    RoundsApart(KeyAfter(w, p, i).value.1, KeyAfter(w, p, j).value.1, a, b, |more|);
    assert MeetsAt(w, p, |more|, i, j, b - a);
  }

  /** The round and the move in it. */
  lemma InRound(t: nat, n: nat) returns (k: nat, i: nat)
    requires n > 0
    ensures i < n && t == i + k * n
  {
    k, i := t / n, t % n;
  }

  lemma EarlierRound(n: nat, a: nat, i: nat, b: nat, j: nat)
    requires i < n && a < b
    ensures i + a * n < j + b * n
  {
    Multiples(a + 1, b, n);
    assert (a + 1) * n == a * n + n;
  }

  lemma {:induction false} Multiples(a: nat, b: nat, n: nat)
    requires a <= b
    ensures a * n <= b * n
    decreases b
  {
    if a < b {
      Multiples(a, b - 1, n);
      assert b * n == (b - 1) * n + n;
    }
  }

  lemma RoundsApart(x: nat, y: nat, a: nat, b: nat, gain: nat)
    requires a <= b && x + a * gain == y + b * gain
    ensures x == y + (b - a) * gain
  {
    assert b * gain == a * gain + (b - a) * gain;
  }

  lemma LevelRoundMeets(w: World, p: Place, n: nat)
    requires n > 0 && p.site.DeclAt?
    ensures MeetsItself(w, p, n, 0)
  {
    assert MeetsAt(w, p, 0, 0, 0, 1);
  }

  lemma {:induction false} FirstMeeting(w: World, p: Place, t: nat) returns (first: nat)
    requires !Distinct(w, p, t)
    ensures first < t && Distinct(w, p, first) && !Distinct(w, p, first + 1) && KeyAfter(w, p, first).Some?
  {
    if Distinct(w, p, t - 1) { first := t - 1; } else { first := FirstMeeting(w, p, t - 1); }
  }

  /** From a declaration round and round: the walk never ends exactly when it never meets itself;
      otherwise the guard answers "unknown". */
  lemma RoundDivergesExactly(w: World, id: DeclId, front: seq<PathStep>, n: nat, more: seq<PathStep>,
                             rest: seq<PathStep>)
    requires IsRound(w, Place(DeclAt(id), front), n, more) && rest != []
    ensures var meets := MeetsItself(w, Place(DeclAt(id), front), n, |more|);
      && (Diverges(w, DeclAt(id), front + rest, {}) <==> !meets)
      && (meets ==> exists enough: nat :: AnswersUnknown(w, DeclAt(id), front + rest, enough))
      && (more == [] ==> meets)
  {
    var p := Place(DeclAt(id), front);
    if more == [] { LevelRoundMeets(w, p, n); }
    if MeetsItself(w, p, n, |more|) {
      RoundEnds(w, id, front, n, more, rest);
    } else {
      forall t: nat ensures Lookup(w, DeclAt(id), front + rest, {}, t).verdict == Overflow {
        RoundGoesOn(w, p, n, more, t);
        forall i, j | 0 <= i < j < t && KeyAfter(w, p, i).Some? ensures KeyAfter(w, p, i) != KeyAfter(w, p, j) {
          if KeyAfter(w, p, i) == KeyAfter(w, p, j) { RepeatedIsMeeting(w, p, n, more, i, j); }
        }
        FreeWhenDistinct(w, p, rest, {}, t);
        FreeOverflows(w, p, rest, {}, t);
      }
    }
  }

  ghost predicate AnswersUnknown(w: World, site: Site, steps: seq<PathStep>, enough: nat) {
    forall depth: nat | depth >= enough :: Lookup(w, site, steps, {}, depth).verdict == Unknown
  }

  lemma RoundEnds(w: World, id: DeclId, front: seq<PathStep>, n: nat, more: seq<PathStep>, rest: seq<PathStep>)
    requires IsRound(w, Place(DeclAt(id), front), n, more) && rest != []
    requires MeetsItself(w, Place(DeclAt(id), front), n, |more|)
    ensures !Diverges(w, DeclAt(id), front + rest, {})
    ensures exists enough: nat :: AnswersUnknown(w, DeclAt(id), front + rest, enough)
  {
    var p := Place(DeclAt(id), front);
    var i, j, k :| 0 <= i < n && 0 <= j < n && 0 <= k && MeetsAt(w, p, |more|, i, j, k);
    MeetingIsRepeated(w, p, n, more, i, j, k);
    var first := FirstMeeting(w, p, j + k * n + 1);
    RoundGoesOn(w, p, n, more, first);
    RoundGoesOn(w, p, n, more, first + 1);
    FreeWhenDistinct(w, p, rest, {}, first);
    forall depth: nat | depth >= first + 1 ensures Lookup(w, DeclAt(id), front + rest, {}, depth).verdict == Unknown {
      StoppedIsUnknown(w, p, rest, {}, first, depth);
    }
    assert AnswersUnknown(w, DeclAt(id), front + rest, first + 1);
    EndsAt(w, DeclAt(id), front + rest, {}, first + 1);
  }

  // ---------------------------------------------------------------------------
  // Rounds and rooms
  // ---------------------------------------------------------------------------

  lemma {:induction false} ExtentNeverGrows(w: World, rooms: Rooms, p: Place, rest: seq<PathStep>, t: nat)
    requires WellFounded(w, rooms) && rest != [] && After(w, p, t).Some?
    ensures var end := After(w, p, t).value;
      Extent(w, rooms, end.site, end.front + rest) <= Extent(w, rooms, p.site, p.front + rest)
    decreases t
  {
    if t > 0 {
      MoveIsWalked(w, p, rest);
      WalkBelow(w, rooms, p.site, p.front + rest);
      ExtentNeverGrows(w, rooms, Move(w, p).value, rest, t - 1);
    }
  }

  /** A round on which the path grows leaves no world well-founded. */
  lemma GrowingRoundIsNotWellFounded(w: World, rooms: Rooms, p: Place, n: nat, more: seq<PathStep>)
    requires IsRound(w, p, n, more) && more != []
    ensures !WellFounded(w, rooms)
  {
    if WellFounded(w, rooms) { ExtentNeverGrows(w, rooms, p, [ArrayHop], n); }
  }

  // ---------------------------------------------------------------------------
  // Two rounds that grow
  // ---------------------------------------------------------------------------

  const A_REFERENCE := Reference("A", Bare, [])

  /** `interface A { … }`. */
  function OneInterface(id: DeclId, members: seq<TypeElement>): World {
    World(map[id := Interface(members, [])], map[(id.file, "A") := id], {})
  }

  /** `A[name]`, and `A[name][more]`. */
  function IndexedOnce(name: string): TypeNode {
    Indexed(A_REFERENCE, Some(name))
  }

  function IndexedTwice(name: string, more: string): TypeNode {
    Indexed(IndexedOnce(name), Some(more))
  }

  lemma IndexedMoves(id: DeclId, members: seq<TypeElement>, name: string, front: seq<PathStep>)
    ensures var w, p := OneInterface(id, members), Place(TypeAt(id.file, IndexedOnce(name)), front);
      && After(w, p, 1) == Some(Place(TypeAt(id.file, A_REFERENCE), [Member(name)] + front))
      && After(w, p, 2) == Some(Place(DeclAt(id), [Member(name)] + front))
  {
    var w, p := OneInterface(id, members), Place(TypeAt(id.file, IndexedOnce(name)), front);
    var q := Place(TypeAt(id.file, A_REFERENCE), [Member(name)] + front);
    assert "A" !in PASSTHROUGH && "A" !in ARRAYS;
    assert Move(w, p) == Some(q);
    assert Move(w, q) == Some(Place(DeclAt(id), q.front)) by { assert [] + q.front == q.front; }
    assert After(w, q, 1) == Move(w, q);
  }

  lemma MemberMoves(id: DeclId, members: seq<TypeElement>, m: TypeElement, name: string)
    requires SpelledMember(members, name) == Some(m) && m.Property? && m.typ.Some?
    ensures Move(OneInterface(id, members), Place(DeclAt(id), [Member(name)]))
      == Some(Place(TypeAt(id.file, m.typ.value), []))
  {
    assert ([Member(name)] + [ArrayHop])[1..] == [ArrayHop] && [Member(name)][1..] == [];
  }

  lemma SecondSpelled(first: TypeElement, second: TypeElement, name: string)
    requires first.Property? && first.text != name && second.Property? && second.text == name
    ensures SpelledMember([first, second], name) == Some(second)
  {
    assert second in [first, second];
  }

  /** `interface A { x: A['x']['x'] }` with the path `x` and more: the walk never ends. */
  lemma DoublyIndexedDiverges(id: DeclId, rest: seq<PathStep>)
    requires rest != []
    ensures var w := OneInterface(id, [Property("x", "x", Some(IndexedTwice("x", "x")))]);
      Diverges(w, DeclAt(id), [Member("x")] + rest, {})
  {
    var m := Property("x", "x", Some(IndexedTwice("x", "x")));
    var w, p := OneInterface(id, [m]), Place(DeclAt(id), [Member("x")]);
    MemberMoves(id, [m], m, "x");
    TwiceMoves(id, [m], p, m.typ.value, "x", "x");
    MeetsOnlyAtStart(w, p);
    RoundDivergesExactly(w, id, [Member("x")], 4, [Member("x")], rest);
  }

  /** From a member `A[name][more]` four moves lead back to `A`. */
  lemma TwiceMoves(id: DeclId, members: seq<TypeElement>, p: Place, node: TypeNode, name: string, more: string)
    requires node == IndexedTwice(name, more)
    requires Move(OneInterface(id, members), p) == Some(Place(TypeAt(id.file, node), []))
    ensures var w := OneInterface(id, members);
      && After(w, p, 1) == Some(Place(TypeAt(id.file, node), []))
      && After(w, p, 2) == Some(Place(TypeAt(id.file, IndexedOnce(name)), [Member(more)]))
      && After(w, p, 3) == Some(Place(TypeAt(id.file, A_REFERENCE), [Member(name)] + [Member(more)]))
      && After(w, p, 4) == Some(Place(DeclAt(id), [Member(name)] + [Member(more)]))
  {
    var w, q := OneInterface(id, members), Place(TypeAt(id.file, node), []);
    var r := Place(TypeAt(id.file, IndexedOnce(name)), [Member(more)]);
    assert Move(w, q) == Some(r) by { assert [Member(more)] + [] == [Member(more)]; }
    OneMove(w, p);
    OneMove(w, q);
    AfterAdd(w, p, 1, 1);
    IndexedMoves(id, members, name, [Member(more)]);
    AfterAdd(w, p, 2, 1);
    AfterAdd(w, p, 2, 2);
  }

  lemma OneMove(w: World, p: Place)
    ensures After(w, p, 1) == Move(w, p)
  {
  }

  lemma MeetsOnlyAtStart(w: World, p: Place)
    requires KeyAfter(w, p, 1).None? && KeyAfter(w, p, 2).None? && KeyAfter(w, p, 3).None?
    ensures !MeetsItself(w, p, 4, 1)
  {
    forall i, j, k | 0 <= i < 4 && 0 <= j < 4 && 0 <= k ensures !MeetsAt(w, p, 1, i, j, k) {
    }
  }

  /** `interface A { x: A['y']['x']; y: A['x'] }` with the path `x` and more: every round makes the path
      longer, but `A` is met twice with a path of the same length, and the guard ends the walk. */
  lemma CrossIndexedEnds(id: DeclId, rest: seq<PathStep>)
    requires rest != []
    ensures var x, y := Property("x", "x", Some(IndexedTwice("y", "x"))), Property("y", "y", Some(IndexedOnce("x")));
      var w, p := OneInterface(id, [x, y]), Place(DeclAt(id), [Member("x")]);
      && IsRound(w, p, 7, [Member("x")])
      && exists enough: nat :: AnswersUnknown(w, DeclAt(id), [Member("x")] + rest, enough)
  {
    var mx, my := Property("x", "x", Some(IndexedTwice("y", "x"))), Property("y", "y", Some(IndexedOnce("x")));
    var members := [mx, my];
    var w, x, y := OneInterface(id, members), Member("x"), Member("y");
    var p, u := Place(DeclAt(id), [x]), Place(DeclAt(id), [y] + [x]);
    assert SpelledMember(members, "x") == Some(mx);
    assert SpelledMember(members, "y") == Some(my) by {
      assert "x"[0] != "y"[0];
      SecondSpelled(mx, my, "y");
    }
    MemberMoves(id, members, mx, "x");
    TwiceMoves(id, members, p, mx.typ.value, "y", "x");
    MemberMoves(id, members, my, "y");
    OnceMoves(id, members, my.typ.value, "y", "x", [x]);
    AfterAdd(w, p, 4, 3);
    assert KeyAfter(w, p, 0) == Some((id, 1)) && KeyAfter(w, p, 4) == Some((id, 2));
    assert MeetsAt(w, p, 1, 4, 0, 1);
    RoundDivergesExactly(w, id, [x], 7, [x], rest);
  }

  /** From a member `A[name]` three moves lead back to `A`. */
  lemma OnceMoves(id: DeclId, members: seq<TypeElement>, node: TypeNode, own: string, name: string, rest: seq<PathStep>)
    requires node == IndexedOnce(name)
    requires Move(OneInterface(id, members), Place(DeclAt(id), [Member(own)])) == Some(Place(TypeAt(id.file, node), []))
    ensures After(OneInterface(id, members), Place(DeclAt(id), [Member(own)] + rest), 3)
         == Some(Place(DeclAt(id), [Member(name)] + rest))
  {
    var w, u := OneInterface(id, members), Place(DeclAt(id), [Member(own)] + rest);
    MoveWithMore(w, Place(DeclAt(id), [Member(own)]), rest);
    assert [] + rest == rest;
    OneMove(w, u);
    IndexedMoves(id, members, name, rest);
    AfterAdd(w, u, 1, 2);
  }
}
