/**
 * When the path walk of scripts/gen-config-catalog.ts gives definite answers: wherever it meets no
 * declaration twice it says "found" and "missing" exactly when the types decide the path.
 */
module TypeCompleteness {
  import opened Basics
  import opened TypeLookup
  import opened TypeTermination

  // ---------------------------------------------------------------------------
  // What a walk meets
  // ---------------------------------------------------------------------------

  /** The places behind one step of the walk. */
  function NextSites(shape: Shape): seq<Site> {
    match shape
    case Go(next, _) => [next]
    case SomeOf(sites, _) => sites
    case EveryOf(sites, _) => sites
    case _ => []
  }

  function NextSteps(shape: Shape): seq<PathStep> {
    match shape
    case Go(_, rest) => rest
    case SomeOf(_, rest) => rest
    case EveryOf(_, rest) => rest
    case _ => []
  }

  /** The stack holds the walk, when nothing is cut short. */
  predicate FitsStack(w: World, site: Site, steps: seq<PathStep>, depth: nat)
    decreases depth, 0
  {
    depth > 0 && (steps == [] ||
      FitEach(w, NextSites(WalkShape(w, site, steps)), NextSteps(WalkShape(w, site, steps)), depth - 1))
  }

  predicate FitEach(w: World, sites: seq<Site>, steps: seq<PathStep>, depth: nat)
    decreases depth, |sites| + 1
  {
    sites == [] || (FitsStack(w, sites[0], steps, depth) && FitEach(w, sites[1..], steps, depth))
  }

  /** The keys of all interfaces and aliases on the way, in order, when nothing is cut short. */
  function Met(w: World, site: Site, steps: seq<PathStep>, depth: nat): seq<Key>
    decreases depth, 0
  {
    if depth == 0 || steps == [] then []
    else
      var shape := WalkShape(w, site, steps);
      (if Guarded(w, site) then [(site.id, |steps|)] else [])
      + MetEach(w, NextSites(shape), NextSteps(shape), depth - 1)
  }

  function MetEach(w: World, sites: seq<Site>, steps: seq<PathStep>, depth: nat): seq<Key>
    decreases depth, |sites| + 1
  {
    if sites == [] then [] else Met(w, sites[0], steps, depth) + MetEach(w, sites[1..], steps, depth)
  }

  /** No key comes twice, and none was there before. */
  predicate NoneTwice(keys: seq<Key>, seen: set<Key>) {
    (forall i, j | 0 <= i < j < |keys| :: keys[i] != keys[j]) && forall k | k in keys :: k !in seen
  }

  function Added(seen: set<Key>, keys: seq<Key>): set<Key> {
    seen + set k | k in keys
  }

  lemma NoneTwiceSplits(a: seq<Key>, b: seq<Key>, seen: set<Key>)
    requires NoneTwice(a + b, seen)
    ensures NoneTwice(a, seen) && NoneTwice(b, Added(seen, a))
    ensures Added(seen, a + b) == Added(Added(seen, a), b)
  {
    assert forall i | 0 <= i < |a| :: (a + b)[i] == a[i];
    assert forall i | 0 <= i < |b| :: (a + b)[|a| + i] == b[i];
    forall k | k in b ensures k !in Added(seen, a) {
      assert k in a + b;
    }
  }

  // ---------------------------------------------------------------------------
  // Definite answers
  // ---------------------------------------------------------------------------

  function Never(): Oracle {
    (site, steps) => false
  }

  function Always(): Oracle {
    (site, steps) => true
  }

  /** The answer says what the types decide: present in every branch and without help from what is
      hidden, or absent from every branch whatever is hidden. */
  ghost predicate Decided(w: World, site: Site, steps: seq<PathStep>, v: Verdict) {
    && v != Overflow
    && (v == Found <==> Has(w, Never(), false, site, steps))
    && (v == Missing <==> !Has(w, Always(), true, site, steps))
  }

  ghost predicate EachDecided(w: World, sites: seq<Site>, steps: seq<PathStep>, vs: seq<Verdict>) {
    && |vs| == |sites| && Overflow !in vs
    && forall i | 0 <= i < |sites| :: Decided(w, sites[i], steps, vs[i])
  }

  /** One step in front of decided answers. */
  ghost predicate ShapeDecided(w: World, shape: Shape, v: Verdict) {
    && v != Overflow
    && (v == Found <==> ShapeHas(w, Never(), false, false, shape))
    && (v == Missing <==> !ShapeHas(w, Always(), true, true, shape))
  }

  lemma PartsAreDecided(w: World, sites: seq<Site>, steps: seq<PathStep>, vs: seq<Verdict>)
    requires EachDecided(w, sites, steps, vs)
    ensures ShapeDecided(w, SomeOf(sites, steps), Combine(vs))
    ensures sites != [] ==> ShapeDecided(w, EveryOf(sites, steps), Agree(vs))
  {
    assert forall i | 0 <= i < |vs| :: vs[i] in vs;
    assert forall v | v in vs :: exists i :: 0 <= i < |vs| && vs[i] == v;
    if sites != [] { assert vs[0] in vs && Decided(w, sites[0], steps, vs[0]); }
  }

  /** Where no declaration is met twice and the stack suffices, the walk decides whatever the types
      decide, and nothing else. */
  lemma {:induction false} LookupDecides(w: World, scope: Scope, site: Site, steps: seq<PathStep>, seen: set<Key>,
                                         depth: nat)
    requires PlainWorld(w, scope) && PlainSite(w, scope, site) && StepsIn(scope, steps)
    requires FitsStack(w, site, steps, depth) && NoneTwice(Met(w, site, steps, depth), seen)
    ensures Decided(w, site, steps, Lookup(w, site, steps, seen, depth).verdict)
    ensures Lookup(w, site, steps, seen, depth).seen == Added(seen, Met(w, site, steps, depth))
    decreases depth, 0, 0
  {
    if steps != [] {
      var shape, marked := WalkShape(w, site, steps), Marked(w, site, steps, seen);
      var own := if Guarded(w, site) then [(site.id, |steps|)] else [];
      var others := MetEach(w, NextSites(shape), NextSteps(shape), depth - 1);
      assert Met(w, site, steps, depth) == own + others;
      NoneTwiceSplits(own, others, seen);
      OwnKeyIsNew(w, site, steps, seen, own);
      PlainShapesAgree(w, scope, site, steps);
      FollowDecides(w, scope, shape, marked, depth - 1);
      HasUnfolds(w, Never(), false, site, steps);
      HasUnfolds(w, Always(), true, site, steps);
    }
  }

  lemma OwnKeyIsNew(w: World, site: Site, steps: seq<PathStep>, seen: set<Key>, own: seq<Key>)
    requires own == (if Guarded(w, site) then [(site.id, |steps|)] else []) && NoneTwice(own, seen)
    ensures !Revisited(w, site, steps, seen) && Marked(w, site, steps, seen) == Added(seen, own)
  {
    if Guarded(w, site) { assert own[0] in own; }
  }

  lemma {:induction false} FollowDecides(w: World, scope: Scope, shape: Shape, seen: set<Key>, depth: nat)
    requires PlainWorld(w, scope) && PlainShape(w, scope, shape)
    requires FitEach(w, NextSites(shape), NextSteps(shape), depth)
    requires NoneTwice(MetEach(w, NextSites(shape), NextSteps(shape), depth), seen)
    ensures ShapeDecided(w, shape, Follow(w, shape, seen, depth).verdict)
    ensures Follow(w, shape, seen, depth).seen == Added(seen, MetEach(w, NextSites(shape), NextSteps(shape), depth))
    decreases depth, 3, 0
  {
    var sites, rest := NextSites(shape), NextSteps(shape);
    EachDecides(w, scope, sites, rest, seen, depth);
    match shape {
      case Go(next, _) => assert LookupEach(w, [next], rest, seen, depth).0
        == [Lookup(w, next, rest, seen, depth).verdict];
      case SomeOf(_, _) => PartsAreDecided(w, sites, rest, LookupEach(w, sites, rest, seen, depth).0);
      case EveryOf(_, _) => PartsAreDecided(w, sites, rest, LookupEach(w, sites, rest, seen, depth).0);
      case _ =>
    }
  }

  lemma {:induction false} EachDecides(w: World, scope: Scope, sites: seq<Site>, steps: seq<PathStep>, seen: set<Key>,
                                       depth: nat)
    requires PlainWorld(w, scope) && StepsIn(scope, steps)
    requires forall i | 0 <= i < |sites| :: PlainSite(w, scope, sites[i])
    requires FitEach(w, sites, steps, depth) && NoneTwice(MetEach(w, sites, steps, depth), seen)
    ensures EachDecided(w, sites, steps, LookupEach(w, sites, steps, seen, depth).0)
    ensures LookupEach(w, sites, steps, seen, depth).1 == Added(seen, MetEach(w, sites, steps, depth))
    decreases depth, 2, |sites|
  {
    if sites != [] {
      var first := Lookup(w, sites[0], steps, seen, depth);
      NoneTwiceSplits(Met(w, sites[0], steps, depth), MetEach(w, sites[1..], steps, depth), seen);
      LookupDecides(w, scope, sites[0], steps, seen, depth);
      EachDecides(w, scope, sites[1..], steps, first.seen, depth);
    }
  }

  // ---------------------------------------------------------------------------
  // Types without names
  // ---------------------------------------------------------------------------

  /** No reference and no indexed access. */
  predicate Structural(node: TypeNode) {
    match node
    case Literal(members) => forall m | m in members :: StructuralElement(m)
    case Parenthesized(inner) => Structural(inner)
    case Intersection(types) => forall t | t in types :: Structural(t)
    case Union(types) => forall t | t in types :: Structural(t)
    case ArrayOf(element) => Structural(element)
    case Operator(_, operand) => Structural(operand)
    case Indexed(_, _) => false
    case Reference(_, _, _) => false
    case OtherType => true
  }

  predicate StructuralElement(m: TypeElement) {
    m.Property? && m.typ.Some? ==> Structural(m.typ.value)
  }

  predicate StructuralSite(site: Site, height: nat) {
    site.TypeAt? && Structural(site.node) && Height(site.node) <= height
  }

  lemma StructuralNext(w: World, site: Site, steps: seq<PathStep>, height: nat)
    requires StructuralSite(site, height) && steps != []
    ensures height > 0 && forall i | 0 <= i < |NextSites(WalkShape(w, site, steps))| ::
      StructuralSite(NextSites(WalkShape(w, site, steps))[i], height - 1)
  {
    match site.node {
      case Literal(members) =>
        if steps[0].Member? && SpelledMember(members, steps[0].name).Some? {
          var m := SpelledMember(members, steps[0].name).value;
          assert m in members && StructuralElement(m);
        }
      case Intersection(types) => assert forall i | 0 <= i < |types| :: types[i] in types;
      case Union(types) => assert forall i | 0 <= i < |types| :: types[i] in types;
      case _ =>
    }
  }

  lemma {:induction false} StructuralFits(w: World, site: Site, steps: seq<PathStep>, height: nat, depth: nat)
    requires StructuralSite(site, height) && depth > height
    ensures FitsStack(w, site, steps, depth) && Met(w, site, steps, depth) == []
    decreases height, 0
  {
    if steps != [] {
      StructuralNext(w, site, steps, height);
      var shape := WalkShape(w, site, steps);
      StructuralFitEach(w, NextSites(shape), NextSteps(shape), height - 1, depth - 1);
    }
  }

  lemma {:induction false} StructuralFitEach(w: World, sites: seq<Site>, steps: seq<PathStep>, height: nat, depth: nat)
    requires depth > height && forall i | 0 <= i < |sites| :: StructuralSite(sites[i], height)
    ensures FitEach(w, sites, steps, depth) && MetEach(w, sites, steps, depth) == []
    decreases height, 1 + |sites|
  {
    if sites != [] {
      StructuralFits(w, sites[0], steps, height, depth);
      StructuralFitEach(w, sites[1..], steps, height, depth);
    }
  }

  /** Without references and indexed access the walk decides whatever the type decides. */
  lemma StructuralDecides(w: World, scope: Scope, file: string, node: TypeNode, steps: seq<PathStep>, seen: set<Key>,
                          depth: nat)
    requires Structural(node) && PlainType(w, scope, file, node) && StepsIn(scope, steps) && depth > Height(node)
    ensures var v := Lookup(w, TypeAt(file, node), steps, seen, depth).verdict;
      && v != Overflow
      && (v == Found <==> Has(w, Never(), false, TypeAt(file, node), steps))
      && (v == Missing <==> !Has(w, Always(), true, TypeAt(file, node), steps))
  {
    var alone := Scope(scope.names, {});
    StructuralIsPlainAlone(w, scope, file, node);
    StructuralFits(w, TypeAt(file, node), steps, Height(node), depth);
    LookupDecides(w, alone, TypeAt(file, node), steps, seen, depth);
  }

  lemma {:induction false} StructuralIsPlainAlone(w: World, scope: Scope, file: string, node: TypeNode)
    requires Structural(node) && PlainType(w, scope, file, node)
    ensures PlainType(w, Scope(scope.names, {}), file, node)
  {
    match node {
      case Literal(members) =>
        forall m | m in members && m.Property? && m.typ.Some? && scope.names(m.text)
          ensures PlainType(w, Scope(scope.names, {}), file, m.typ.value)
        {
          assert StructuralElement(m);
          StructuralIsPlainAlone(w, scope, file, m.typ.value);
        }
      case Parenthesized(inner) => StructuralIsPlainAlone(w, scope, file, inner);
      case Intersection(types) =>
        forall t | t in types ensures PlainType(w, Scope(scope.names, {}), file, t) {
          StructuralIsPlainAlone(w, scope, file, t);
        }
      case Union(types) =>
        forall t | t in types ensures PlainType(w, Scope(scope.names, {}), file, t) {
          StructuralIsPlainAlone(w, scope, file, t);
        }
      case ArrayOf(element) => StructuralIsPlainAlone(w, scope, file, element);
      case Operator(_, operand) => StructuralIsPlainAlone(w, scope, file, operand);
      case _ =>
    }
  }
}
