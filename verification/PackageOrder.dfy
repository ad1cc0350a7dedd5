/**
 * The package order of scripts/package-graph.ts: a topological sort that places, round by
 * round, every package whose dependencies are placed, each round sorted by group and name.
 */
module PackageOrder {
  import opened Basics
  import opened Graphs
  import opened Sources
  import opened Sorting

  datatype Package = Package(short: Name, group: string, deps: seq<Name>)

  // ---------------------------------------------------------------------------
  // The packages as a graph
  // ---------------------------------------------------------------------------

  function Names(ps: seq<Package>): set<Name> {
    set p | p in ps :: p.short
  }

  lemma NamesFirst(p: Package, rest: seq<Package>)
    ensures Names([p] + rest) == {p.short} + Names(rest)
  {
    assert forall q | q in [p] + rest :: q == p || q in rest;
  }

  ghost predicate UniqueNames(all: seq<Package>)
    decreases |all|
  {
    all == [] || (all[0].short !in Names(all[1..]) && UniqueNames(all[1..]))
  }

  lemma UniqueFirst(p: Package, rest: seq<Package>)
    ensures UniqueNames([p] + rest) <==> p.short !in Names(rest) && UniqueNames(rest)
  {
    assert ([p] + rest)[1..] == rest;
  }

  ghost predicate IsGraphOf(g: Graph<Name>, all: seq<Package>) {
    && g.Keys == Names(all)
    && forall p | p in all :: p.short in g && g[p.short] == p.deps
  }

  function GraphOf(all: seq<Package>): Graph<Name> {
    if all == [] then map[] else GraphOf(all[1..])[all[0].short := all[0].deps]
  }

  lemma {:induction false} GraphOfUnique(all: seq<Package>)
    requires UniqueNames(all)
    ensures IsGraphOf(GraphOf(all), all)
  {
    if all != [] {
      GraphOfUnique(all[1..]);
      assert all == [all[0]] + all[1..];
      NamesFirst(all[0], all[1..]);
      assert forall p | p in all[1..] :: p.short in Names(all[1..]);
    }
  }

  /** Every dependency is a package of the graph. */
  ghost predicate Closed(g: Graph<Name>) {
    forall x, d {:trigger Edge(g, x, d)} | Edge(g, x, d) :: d in g
  }

  /** From the package a chain of `n` dependencies can be followed; a missing package has no end. */
  ghost predicate Deeper(g: Graph<Name>, x: Name, n: nat)
    decreases n, 0
  {
    x !in g || n == 0 || DependsDeeper(g, x, n - 1)
  }

  ghost predicate DependsDeeper(g: Graph<Name>, x: Name, n: nat)
    decreases n, 1
  {
    exists d :: Edge(g, x, d) && Deeper(g, d, n)
  }

  lemma {:induction false} DeeperFalls(g: Graph<Name>, x: Name, n: nat)
    requires Deeper(g, x, n + 1)
    ensures Deeper(g, x, n)
    decreases n
  {
    if x in g && n > 0 {
      var d :| Edge(g, x, d) && Deeper(g, d, n);
      DeeperFalls(g, d, n - 1);
      assert DependsDeeper(g, x, n - 1);
    }
  }

  lemma {:induction false} DeeperFallsTo(g: Graph<Name>, x: Name, m: nat, n: nat)
    requires Deeper(g, x, n) && m <= n
    ensures Deeper(g, x, m)
    decreases n
  {
    if m < n {
      DeeperFalls(g, x, n - 1);
      DeeperFallsTo(g, x, m, n - 1);
    }
  }

  ghost predicate IsChain(g: Graph<Name>, x: Name, n: nat, w: seq<Name>) {
    IsWalk(g, w) && |w| == n + 1 && w[0] == x
  }

  ghost predicate HasChain(g: Graph<Name>, x: Name, n: nat) {
    exists w :: IsChain(g, x, n, w)
  }

  /** When nothing is missing, it is a walk of that many edges. */
  lemma {:induction false} DeeperIsWalk(g: Graph<Name>, x: Name, n: nat)
    requires Closed(g) && x in g
    ensures Deeper(g, x, n) <==> HasChain(g, x, n)
    decreases n
  {
    if n == 0 {
      assert IsChain(g, x, n, [x]);
    } else {
      if Deeper(g, x, n) {
        assert DependsDeeper(g, x, n - 1);
        var d :| Edge(g, x, d) && Deeper(g, d, n - 1);
        DeeperIsWalk(g, d, n - 1);
        var w :| IsChain(g, d, n - 1, w);
        assert IsChain(g, x, n, [x] + w);
      }
      forall w | IsChain(g, x, n, w) ensures Deeper(g, x, n) {
        assert Edge(g, w[0], w[1]);
        assert IsChain(g, w[1], n - 1, w[1..]);
        DeeperIsWalk(g, w[1], n - 1);
        assert DependsDeeper(g, x, n - 1);
      }
    }
  }

  /** The least bound on the chains from a package. */
  ghost function Rank(g: Graph<Name>, x: Name, bound: nat): (rank: nat)
    requires !Deeper(g, x, bound)
    ensures !Deeper(g, x, rank) && rank <= bound
    ensures forall m: nat | m < rank :: Deeper(g, x, m)
  {
    if Deeper(g, x, bound - 1) then
      assert forall m: nat | m < bound :: Deeper(g, x, m) by {
        forall m: nat | m < bound ensures Deeper(g, x, m) { DeeperFallsTo(g, x, m, bound - 1); }
      }
      bound
    else Rank(g, x, bound - 1)
  }

  lemma EdgeIsDeeper(g: Graph<Name>, x: Name, d: Name, n: nat)
    requires Edge(g, x, d) && Deeper(g, d, n)
    ensures Deeper(g, x, n + 1)
  {
    assert DependsDeeper(g, x, n);
  }

  lemma EdgeIsShallower(g: Graph<Name>, x: Name, d: Name, n: nat)
    requires Edge(g, x, d) && !Deeper(g, x, n)
    ensures n > 0 && !Deeper(g, d, n - 1) && d in g
  {
    assert !DependsDeeper(g, x, n - 1);
  }

  /** Bounded chains: nothing is missing and there is no cycle. */
  lemma BoundedIsAcyclic(g: Graph<Name>, bound: nat)
    requires forall x | x in g :: !Deeper(g, x, bound)
    ensures Closed(g) && Acyclic(g)
  {
    forall x, d {:trigger Edge(g, x, d)} | Edge(g, x, d) ensures d in g {
      EdgeIsShallower(g, x, d, bound);
    }
    var rank := map x | x in g :: Rank(g, x, bound);
    forall x, y {:trigger Edge(g, x, y)} | x in rank && y in g && Edge(g, x, y) ensures y in rank && rank[y] < rank[x] {
      EdgeIsShallower(g, x, y, rank[x]);
    }
    assert Ranked(g, rank);
    RankedIsAcyclic(g, rank);
  }

  // ---------------------------------------------------------------------------
  // Comparing packages
  // ---------------------------------------------------------------------------

  /** `localeCompare`. */
  type Collation = (string, string) -> int

  /** A collation that is a total order and tells different texts apart. */
  ghost predicate Discerning(locale: Collation) {
    && (forall a, b :: locale(a, b) == 0 <==> a == b)
    && (forall a, b :: locale(a, b) < 0 <==> locale(b, a) > 0)
    && (forall a, b, c {:trigger locale(a, b), locale(b, c)} ::
          locale(a, b) <= 0 && locale(b, c) <= 0 ==> locale(a, c) <= 0)
  }

  function IndexOf(order: seq<string>, group: string): int {
    if order == [] then -1
    else if order[0] == group then 0
    else
      var rest := IndexOf(order[1..], group);
      if rest == -1 then -1 else rest + 1
  }

  function Place(order: seq<string>, group: string): int {
    var at := IndexOf(order, group);
    if at == -1 then MAX_SAFE_INTEGER else at
  }

  /** `comparePackages`. */
  function Compare(a: Package, b: Package, order: seq<string>, locale: Collation): int {
    var byPlace := Place(order, a.group) - Place(order, b.group);
    if byPlace != 0 then byPlace
    else
      var byGroup := locale(a.group, b.group);
      if byGroup != 0 then byGroup else locale(a.short.text, b.short.text)
  }

  type Comparison = Order<Package>

  /** `comparePackages(a, b) <= 0`. */
  function NotAfter(order: seq<string>, locale: Collation): Comparison {
    (a, b) => Compare(a, b, order, locale) <= 0
  }

  /** Packages of different names are never level. */
  ghost predicate TotalOrder(le: Comparison) {
    Sorting.IsOrder(le) && forall a, b {:trigger le(a, b)} :: le(a, b) && le(b, a) ==> a.short == b.short
  }

  lemma CompareIsTransitive(a: Package, b: Package, c: Package, order: seq<string>, locale: Collation)
    requires Discerning(locale)
    requires Compare(a, b, order, locale) <= 0 && Compare(b, c, order, locale) <= 0
    ensures Compare(a, c, order, locale) <= 0
  {
    assert locale(a.group, b.group) <= 0 && locale(b.group, c.group) <= 0 ==> locale(a.group, c.group) <= 0;
    assert locale(c.group, b.group) <= 0 && locale(b.group, a.group) <= 0 ==> locale(c.group, a.group) <= 0;
  }

  lemma CompareIsTotal(order: seq<string>, locale: Collation)
    requires Discerning(locale)
    ensures TotalOrder(NotAfter(order, locale))
  {
    var le := NotAfter(order, locale);
    forall a, b, c {:trigger le(a, b), le(b, c)} | le(a, b) && le(b, c) ensures le(a, c) {
      CompareIsTransitive(a, b, c, order, locale);
    }
  }

  // ---------------------------------------------------------------------------
  // Rounds
  // ---------------------------------------------------------------------------

  /** `Map.set`: a package of a known name takes the earlier one's place. */
  function Put(entries: seq<Package>, p: Package): seq<Package> {
    if entries == [] then [p]
    else if entries[0].short == p.short then [p] + entries[1..]
    else [entries[0]] + Put(entries[1..], p)
  }

  /** `new Map(packages.map(pkg => [pkg.short, pkg]))`. */
  function Entries(packages: seq<Package>): seq<Package> {
    if packages == [] then [] else Put(Entries(packages[..|packages| - 1]), packages[|packages| - 1])
  }

  /** The entries that are not placed. */
  function Outside(ps: seq<Package>, placed: set<Name>): (out: seq<Package>)
    ensures forall p :: p in out <==> p in ps && p.short !in placed
    ensures |out| <= |ps|
  {
    if ps == [] then []
    else if ps[0].short in placed then Outside(ps[1..], placed)
    else [ps[0]] + Outside(ps[1..], placed)
  }

  lemma OutsideFirst(p: Package, rest: seq<Package>, placed: set<Name>)
    ensures Outside([p] + rest, placed) ==
      if p.short in placed then Outside(rest, placed) else [p] + Outside(rest, placed)
  {
    assert ([p] + rest)[1..] == rest;
  }

  predicate IsReady(p: Package, placed: set<Name>) {
    forall d | d in p.deps :: d in placed
  }

  /** The packages whose dependencies are all placed. */
  function Ready(ps: seq<Package>, placed: set<Name>): (ready: seq<Package>)
    ensures forall p :: p in ready <==> p in ps && IsReady(p, placed)
  {
    if ps == [] then []
    else if IsReady(ps[0], placed) then [ps[0]] + Ready(ps[1..], placed)
    else Ready(ps[1..], placed)
  }

  lemma ReadyFirst(p: Package, rest: seq<Package>, placed: set<Name>)
    ensures Ready([p] + rest, placed) == if IsReady(p, placed) then [p] + Ready(rest, placed) else Ready(rest, placed)
  {
    assert ([p] + rest)[1..] == rest;
  }

  /** The packages whose longest chain of dependencies has exactly `depth` steps. */
  ghost function Layer(g: Graph<Name>, all: seq<Package>, depth: nat): (layer: seq<Package>)
    ensures forall p :: p in layer <==> p in all && Deeper(g, p.short, depth) && !Deeper(g, p.short, depth + 1)
  {
    if all == [] then []
    else if Deeper(g, all[0].short, depth) && !Deeper(g, all[0].short, depth + 1) then
      [all[0]] + Layer(g, all[1..], depth)
    else Layer(g, all[1..], depth)
  }

  ghost function Concat(rounds: nat -> seq<Package>, count: nat): seq<Package> {
    if count == 0 then [] else Concat(rounds, count - 1) + rounds(count - 1)
  }

  ghost function SortedLayers(g: Graph<Name>, all: seq<Package>, le: Comparison): nat -> seq<Package> {
    (depth: nat) => Sorted(Layer(g, all, depth), le)
  }

  /** The layers above a depth, each one sorted. */
  ghost function Layers(g: Graph<Name>, all: seq<Package>, le: Comparison, depth: nat): seq<Package> {
    Concat(SortedLayers(g, all, le), depth)
  }

  lemma {:induction false} OutsideTwice(ps: seq<Package>, placed: set<Name>, more: set<Name>)
    ensures Outside(Outside(ps, placed), more) == Outside(ps, placed + more)
  {
    if ps != [] {
      OutsideTwice(ps[1..], placed, more);
      OutsideFirst(ps[0], Outside(ps[1..], placed), more);
    }
  }

  lemma {:induction false} OutsideDrops(ps: seq<Package>, p: Package)
    requires p in ps
    ensures |Outside(ps, {p.short})| < |ps|
  {
    if p != ps[0] { OutsideDrops(ps[1..], p); }
  }

  /** Exactly the packages whose chains are shorter than `depth` are placed. */
  ghost predicate PlacedBelow(g: Graph<Name>, placed: set<Name>, depth: nat) {
    forall x :: x in placed <==> !Deeper(g, x, depth)
  }

  lemma ReadyIsShallow(g: Graph<Name>, p: Package, placed: set<Name>, depth: nat)
    requires p.short in g && g[p.short] == p.deps && PlacedBelow(g, placed, depth)
    ensures IsReady(p, placed) <==> !Deeper(g, p.short, depth + 1)
  {
    if IsReady(p, placed) {
      assert !DependsDeeper(g, p.short, depth);
    } else {
      var d :| d in p.deps && d !in placed;
      assert Edge(g, p.short, d);
      EdgeIsDeeper(g, p.short, d, depth);
    }
  }

  /** What a round finds ready is the next layer. */
  lemma {:induction false} ReadyIsLayer(g: Graph<Name>, ps: seq<Package>, placed: set<Name>, depth: nat)
    requires (forall p | p in ps :: p.short in g && g[p.short] == p.deps) && PlacedBelow(g, placed, depth)
    ensures Ready(Outside(ps, placed), placed) == Layer(g, ps, depth)
  {
    if ps != [] {
      ReadyIsLayer(g, ps[1..], placed, depth);
      ReadyIsShallow(g, ps[0], placed, depth);
      ReadyFirst(ps[0], Outside(ps[1..], placed), placed);
    }
  }

  /** Placing a layer. */
  lemma PlacedNext(g: Graph<Name>, all: seq<Package>, placed: set<Name>, depth: nat)
    requires IsGraphOf(g, all) && PlacedBelow(g, placed, depth)
    ensures PlacedBelow(g, placed + Names(Layer(g, all, depth)), depth + 1)
  {
    forall x ensures x in placed + Names(Layer(g, all, depth)) <==> !Deeper(g, x, depth + 1) {
      if x in placed {
        if Deeper(g, x, depth + 1) { DeeperFalls(g, x, depth); }
      } else if !Deeper(g, x, depth + 1) {
        assert x in Names(all);
        var p :| p in all && p.short == x;
        assert p in Layer(g, all, depth);
      }
    }
  }

  // ---------------------------------------------------------------------------
  // The sort
  // ---------------------------------------------------------------------------

  /** The layers, shallowest first, up to a depth that no package reaches. */
  ghost predicate IsLayering(all: seq<Package>, le: Comparison, depth: nat, out: seq<Package>) {
    && out == Layers(GraphOf(all), all, le, depth)
    && forall p | p in all :: !Deeper(GraphOf(all), p.short, depth)
  }

  ghost predicate IsPackageOrder(all: seq<Package>, le: Comparison, out: seq<Package>) {
    exists depth :: IsLayering(all, le, depth, out)
  }

  /** When no package is ready, one is missing or there is a cycle. */
  lemma StuckHasNoOrder(all: seq<Package>, placed: set<Name>)
    requires IsGraphOf(GraphOf(all), all) && Outside(all, placed) != []
    requires forall p | p in all && p.short !in placed :: !IsReady(p, placed)
    ensures !Closed(GraphOf(all)) || !Acyclic(GraphOf(all))
  {
    var g, remaining := GraphOf(all), Outside(all, placed);
    if Closed(g) {
      var trap := Names(remaining);
      assert remaining[0].short in trap;
      forall x | x in trap ensures HasEdgeInto(g, x, trap) {
        var p :| p in remaining && p.short == x;
        var d :| d in p.deps && d !in placed;
        assert Edge(g, x, d);
        assert d in Names(all);
        var q :| q in all && q.short == d;
        assert q in remaining;
      }
      TrapHasCycle(g, trap);
    }
  }

  lemma AllPlacedHasOrder(all: seq<Package>, placed: set<Name>, depth: nat)
    requires IsGraphOf(GraphOf(all), all) && PlacedBelow(GraphOf(all), placed, depth) && Outside(all, placed) == []
    ensures forall p | p in all :: !Deeper(GraphOf(all), p.short, depth)
    ensures Closed(GraphOf(all)) && Acyclic(GraphOf(all))
  {
    forall p | p in all ensures p.short in placed {
      assert p !in Outside(all, placed);
    }
    BoundedIsAcyclic(GraphOf(all), depth);
  }

  lemma SortedNames(ps: seq<Package>, le: Comparison)
    ensures Names(Sorted(ps, le)) == Names(ps)
  {
    assert forall p :: p in Sorted(ps, le) <==> p in multiset(Sorted(ps, le));
    assert forall p :: p in ps <==> p in multiset(ps);
  }

  lemma PlacesOne(all: seq<Package>, remaining: seq<Package>, placed: set<Name>, ready: seq<Package>, i: nat)
    requires i < |ready| && remaining == Outside(all, placed)
    ensures Outside(remaining, {ready[i].short}) == Outside(all, placed + {ready[i].short})
    ensures ready[..i + 1] == ready[..i] + [ready[i]]
    ensures Names(ready[..i + 1]) == Names(ready[..i]) + {ready[i].short}
  {
    OutsideTwice(all, placed, {ready[i].short});
    assert ready[..i + 1] == ready[..i] + [ready[i]];
    NamesLast(ready[..i], ready[i]);
  }

  /** One round: the inner loop, which places every ready package and takes it off the map. */
  method PlaceAll(all: seq<Package>, remaining: seq<Package>, placed: set<Name>, ready: seq<Package>)
    returns (left: seq<Package>, done: set<Name>, out: seq<Package>)
    requires remaining == Outside(all, placed) && ready != [] && ready[0] in remaining
    ensures done == placed + Names(ready) && left == Outside(all, done) && out == ready
    ensures |left| < |remaining|
  {
    left, done, out := remaining, placed, [];
    for i := 0 to |ready|
      invariant out == ready[..i] && left == Outside(all, done) && done == placed + Names(ready[..i])
      invariant if i == 0 then left == remaining else |left| < |remaining|
    {
      PlacesOne(all, left, done, ready, i);
      if i == 0 { OutsideDrops(left, ready[0]); }
      out := out + [ready[i]];
      done := done + {ready[i].short};
      left := Outside(left, {ready[i].short});
    }
    assert ready[..|ready|] == ready;
  }

  /** `topoSort`; None stands for the thrown error. */
  method TopoSort(packages: seq<Package>, order: seq<string>, locale: Collation) returns (sorted: Option<seq<Package>>)
    ensures var g := GraphOf(Entries(packages)); sorted.Some? <==> Closed(g) && Acyclic(g)
    ensures sorted.Some? ==> IsPackageOrder(Entries(packages), NotAfter(order, locale), sorted.value)
  {
    var all, le := Entries(packages), NotAfter(order, locale);
    ghost var g := GraphOf(all);
    EntriesAreUnique(packages);
    GraphOfUnique(all);
    var remaining, placed, out := all, {}, [];
    OutsideNothing(all);
    ghost var depth: nat := 0;
    while remaining != []
      invariant remaining == Outside(all, placed)
      invariant PlacedBelow(g, placed, depth)
      invariant out == Layers(g, all, le, depth)
      decreases |remaining|
    {
      var ready := Sorted(Ready(remaining, placed), le);
      if ready == [] {
        NoneReady(remaining, placed, le);
        StuckHasNoOrder(all, placed);
        return None;
      }
      ReadyIsLayer(g, all, placed, depth);
      SortedNames(Layer(g, all, depth), le);
      PlacedNext(g, all, placed, depth);
      FirstIsReady(remaining, placed, le);
      var left, done, placedNow := PlaceAll(all, remaining, placed, ready);
      remaining, placed, out := left, done, out + placedNow;
      depth := depth + 1;
    }
    AllPlacedHasOrder(all, placed, depth);
    assert IsLayering(all, le, depth, out);
    return Some(out);
  }

  lemma NoneReady(ps: seq<Package>, placed: set<Name>, le: Comparison)
    requires Sorted(Ready(ps, placed), le) == []
    ensures forall p | p in ps :: !IsReady(p, placed)
  {
    assert |Ready(ps, placed)| == |multiset(Ready(ps, placed))| == |multiset(Sorted(Ready(ps, placed), le))| == 0;
    forall p | p in ps ensures !IsReady(p, placed) {
      assert p !in Ready(ps, placed);
    }
  }

  lemma FirstIsReady(ps: seq<Package>, placed: set<Name>, le: Comparison)
    requires Sorted(Ready(ps, placed), le) != []
    ensures Sorted(Ready(ps, placed), le)[0] in ps
  {
    assert Sorted(Ready(ps, placed), le)[0] in multiset(Ready(ps, placed));
  }

  lemma {:induction false} OutsideNothing(ps: seq<Package>)
    ensures Outside(ps, {}) == ps
  {
    if ps != [] { OutsideNothing(ps[1..]); }
  }

  lemma {:induction false} PutKeepsUnique(entries: seq<Package>, p: Package)
    requires UniqueNames(entries)
    ensures UniqueNames(Put(entries, p)) && Names(Put(entries, p)) == Names(entries) + {p.short}
    ensures p.short !in Names(entries) ==> Put(entries, p) == entries + [p]
  {
    if entries != [] {
      var first, rest := entries[0], entries[1..];
      assert entries == [first] + rest;
      NamesFirst(first, rest);
      if first.short == p.short {
        NamesFirst(p, rest);
        UniqueFirst(p, rest);
      } else {
        PutKeepsUnique(rest, p);
        NamesFirst(first, Put(rest, p));
        UniqueFirst(first, Put(rest, p));
      }
    }
  }

  lemma {:induction false} UniqueFront(ps: seq<Package>, last: Package)
    requires UniqueNames(ps + [last])
    ensures UniqueNames(ps) && last.short !in Names(ps)
  {
    if ps != [] {
      var first, rest := ps[0], ps[1..];
      assert ps == [first] + rest && ps + [last] == [first] + (rest + [last]);
      UniqueFirst(first, rest + [last]);
      UniqueFirst(first, rest);
      NamesFirst(first, rest);
      UniqueFront(rest, last);
      NamesLast(rest, last);
    }
  }

  lemma NamesLast(ps: seq<Package>, last: Package)
    ensures Names(ps + [last]) == Names(ps) + {last.short}
  {
    assert forall q | q in ps + [last] :: q in ps || q == last;
  }

  /** The map's values have different names; packages with different names are all kept, in order. */
  lemma {:induction false} EntriesAreUnique(packages: seq<Package>)
    ensures UniqueNames(Entries(packages)) && Names(Entries(packages)) == Names(packages)
    ensures UniqueNames(packages) ==> Entries(packages) == packages
  {
    if packages != [] {
      var front, last := packages[..|packages| - 1], packages[|packages| - 1];
      assert packages == front + [last];
      EntriesAreUnique(front);
      PutKeepsUnique(Entries(front), last);
      NamesLast(front, last);
      if UniqueNames(packages) { UniqueFront(front, last); }
    }
  }

  // ---------------------------------------------------------------------------
  // What the order is
  // ---------------------------------------------------------------------------

  lemma {:induction false} ConcatHas(rounds: nat -> seq<Package>, count: nat, p: Package)
    ensures p in Concat(rounds, count) <==> exists d: nat :: d < count && p in rounds(d)
  {
    if count > 0 { ConcatHas(rounds, count - 1, p); }
  }

  lemma {:induction false} PutHas(entries: seq<Package>, p: Package, q: Package)
    requires q == p || (q in entries && q.short != p.short)
    ensures q in Put(entries, p)
  {
    if entries != [] && entries[0].short != p.short && q != entries[0] { PutHas(entries[1..], p, q); }
  }

  /** Of packages of one name the map keeps the last. */
  lemma {:induction false} EntriesAreLast(packages: seq<Package>, i: nat)
    requires i < |packages| && forall j | i < j < |packages| :: packages[j].short != packages[i].short
    ensures packages[i] in Entries(packages)
  {
    var front, last := packages[..|packages| - 1], packages[|packages| - 1];
    if i < |front| { EntriesAreLast(front, i); }
    PutHas(Entries(front), last, packages[i]);
  }

  lemma RoundHas(g: Graph<Name>, all: seq<Package>, le: Comparison, d: nat, p: Package)
    ensures p in SortedLayers(g, all, le)(d) <==> p in all && Deeper(g, p.short, d) && !Deeper(g, p.short, d + 1)
  {
    SortedHas(Layer(g, all, d), le, p);
  }

  lemma LayersHaveAll(g: Graph<Name>, all: seq<Package>, le: Comparison, depth: nat, p: Package)
    requires p in all && !Deeper(g, p.short, depth)
    ensures p in Layers(g, all, le, depth)
  {
    var rank := Rank(g, p.short, depth);
    assert rank > 0;
    RoundHas(g, all, le, rank - 1, p);
    ConcatHas(SortedLayers(g, all, le), depth, p);
  }

  lemma LayersHaveOnly(g: Graph<Name>, all: seq<Package>, le: Comparison, depth: nat, p: Package)
    requires p in Layers(g, all, le, depth)
    ensures p in all && !Deeper(g, p.short, depth)
  {
    var rounds := SortedLayers(g, all, le);
    ConcatHas(rounds, depth, p);
    var d: nat :| d < depth && p in rounds(d);
    RoundHas(g, all, le, d, p);
    if Deeper(g, p.short, depth) { DeeperFallsTo(g, p.short, d + 1, depth); }
  }

  /** Every dependency of the package at `i` stands before it. */
  ghost predicate DependenciesBefore(out: seq<Package>, i: nat)
    requires i < |out|
  {
    forall d | d in out[i].deps :: d in Names(out[..i])
  }

  /** Every dependency of a round's packages is in an earlier round. */
  ghost predicate RoundFollows(rounds: nat -> seq<Package>, d: nat) {
    forall p | p in rounds(d) :: forall dep | dep in p.deps :: dep in Names(Concat(rounds, d))
  }

  lemma {:induction false} ConcatFollows(rounds: nat -> seq<Package>, count: nat, i: nat)
    requires i < |Concat(rounds, count)|
    requires forall d: nat :: RoundFollows(rounds, d)
    ensures DependenciesBefore(Concat(rounds, count), i)
  {
    var above, last := Concat(rounds, count - 1), rounds(count - 1);
    var out := above + last;
    if i < |above| {
      ConcatFollows(rounds, count - 1, i);
      assert out[..i] == above[..i];
    } else {
      assert RoundFollows(rounds, count - 1);
      assert out[i] in last;
      assert out[..i] == above + out[|above|..i];
      assert Names(above) <= Names(out[..i]);
    }
  }

  lemma LayersFollow(all: seq<Package>, le: Comparison, d: nat)
    requires IsGraphOf(GraphOf(all), all) && Closed(GraphOf(all))
    ensures RoundFollows(SortedLayers(GraphOf(all), all, le), d)
  {
    var g := GraphOf(all);
    var rounds := SortedLayers(g, all, le);
    forall p, dep | p in rounds(d) && dep in p.deps ensures dep in Names(Concat(rounds, d)) {
      RoundHas(g, all, le, d, p);
      DependencyIsAbove(all, le, d, p, dep);
    }
  }

  lemma DependencyIsAbove(all: seq<Package>, le: Comparison, d: nat, p: Package, dep: Name)
    requires IsGraphOf(GraphOf(all), all) && Closed(GraphOf(all))
    requires p in all && !Deeper(GraphOf(all), p.short, d + 1) && dep in p.deps
    ensures dep in Names(Layers(GraphOf(all), all, le, d))
  {
    assert Edge(GraphOf(all), p.short, dep);
    EdgeIsShallower(GraphOf(all), p.short, dep, d + 1);
    assert dep in Names(all);
    var q :| q in all && q.short == dep;
    LayersHaveAll(GraphOf(all), all, le, d, q);
  }

  /** Each package follows all its dependencies. */
  lemma OrderFollowsDependencies(all: seq<Package>, le: Comparison, out: seq<Package>, i: nat)
    requires UniqueNames(all) && IsPackageOrder(all, le, out) && i < |out|
    ensures DependenciesBefore(out, i)
  {
    var depth :| IsLayering(all, le, depth, out);
    GraphOfUnique(all);
    ShallowIsClosed(all, depth);
    forall d: nat ensures RoundFollows(SortedLayers(GraphOf(all), all, le), d) {
      LayersFollow(all, le, d);
    }
    ConcatFollows(SortedLayers(GraphOf(all), all, le), depth, i);
  }

  lemma ShallowIsClosed(all: seq<Package>, depth: nat)
    requires IsGraphOf(GraphOf(all), all) && forall p | p in all :: !Deeper(GraphOf(all), p.short, depth)
    ensures Closed(GraphOf(all)) && Acyclic(GraphOf(all))
  {
    forall x | x in GraphOf(all) ensures !Deeper(GraphOf(all), x, depth) {
      assert x in Names(all);
    }
    BoundedIsAcyclic(GraphOf(all), depth);
  }

  /** The n-th layer holds the packages whose longest chain has n steps. */
  lemma LayerIsLongestChain(all: seq<Package>, p: Package, n: nat)
    requires UniqueNames(all) && p in all && Closed(GraphOf(all))
    ensures p in Layer(GraphOf(all), all, n)
      <==> HasChain(GraphOf(all), p.short, n) && !HasChain(GraphOf(all), p.short, n + 1)
  {
    GraphOfUnique(all);
    DeeperIsWalk(GraphOf(all), p.short, n);
    DeeperIsWalk(GraphOf(all), p.short, n + 1);
  }

  // ---------------------------------------------------------------------------
  // Permutation, and independence of the input's order
  // ---------------------------------------------------------------------------

  lemma {:induction false} LayerCount(g: Graph<Name>, all: seq<Package>, depth: nat, p: Package)
    ensures multiset(Layer(g, all, depth))[p]
         == if Deeper(g, p.short, depth) && !Deeper(g, p.short, depth + 1) then multiset(all)[p] else 0
  {
    if all != [] {
      LayerCount(g, all[1..], depth, p);
      assert all == [all[0]] + all[1..];
      assert multiset(all) == multiset{all[0]} + multiset(all[1..]);
    }
  }

  lemma {:induction false} ConcatCount(rounds: nat -> seq<Package>, count: nat, p: Package, at: nat, times: nat)
    requires OnlyInRound(rounds, count, p, at, times)
    ensures multiset(Concat(rounds, count))[p] == if at < count then times else 0
  {
    if count > 0 { ConcatCount(rounds, count - 1, p, at, times); }
  }

  /** `p` stands `times` times in round `at` and in no other of the first `count` rounds. */
  ghost predicate OnlyInRound(rounds: nat -> seq<Package>, count: nat, p: Package, at: nat, times: nat) {
    forall d: nat | d < count :: multiset(rounds(d))[p] == if d == at then times else 0
  }

  lemma LayersCount(g: Graph<Name>, all: seq<Package>, le: Comparison, depth: nat, p: Package)
    requires !Deeper(g, p.short, depth)
    ensures multiset(Layers(g, all, le, depth))[p] == multiset(all)[p]
  {
    var rank := Rank(g, p.short, depth);
    assert 0 < rank <= depth && Deeper(g, p.short, rank - 1) && !Deeper(g, p.short, rank);
    assert OnlyInRound(SortedLayers(g, all, le), depth, p, rank - 1, multiset(all)[p]) by {
      forall d: nat | d < depth
        ensures multiset(SortedLayers(g, all, le)(d))[p] == if d == rank - 1 then multiset(all)[p] else 0
      {
        RoundCount(g, all, le, rank, d, p);
      }
    }
    ConcatCount(SortedLayers(g, all, le), depth, p, rank - 1, multiset(all)[p]);
  }

  lemma RoundCount(g: Graph<Name>, all: seq<Package>, le: Comparison, rank: nat, d: nat, p: Package)
    requires rank > 0 && Deeper(g, p.short, rank - 1) && !Deeper(g, p.short, rank)
    ensures multiset(SortedLayers(g, all, le)(d))[p] == if d == rank - 1 then multiset(all)[p] else 0
  {
    assert SortedLayers(g, all, le)(d) == Sorted(Layer(g, all, d), le);
    LayerCount(g, all, d, p);
    EndsOnce(g, p.short, rank, d);
  }

  lemma EndsOnce(g: Graph<Name>, x: Name, rank: nat, d: nat)
    requires rank > 0 && Deeper(g, x, rank - 1) && !Deeper(g, x, rank)
    ensures Deeper(g, x, d) && !Deeper(g, x, d + 1) <==> d == rank - 1
  {
    if d >= rank && Deeper(g, x, d) { DeeperFallsTo(g, x, rank, d); }
    if d + 1 < rank { DeeperFallsTo(g, x, d + 1, rank - 1); }
  }

  /** The order is a permutation of the packages. */
  lemma OrderIsPermutation(all: seq<Package>, le: Comparison, out: seq<Package>)
    requires IsPackageOrder(all, le, out)
    ensures multiset(out) == multiset(all)
  {
    var depth :| IsLayering(all, le, depth, out);
    forall p ensures multiset(out)[p] == multiset(all)[p] {
      if Deeper(GraphOf(all), p.short, depth) {
        assert p !in all && p !in multiset(all);
        if p in out { LayersHaveOnly(GraphOf(all), all, le, depth, p); }
        assert p !in multiset(out);
      } else {
        LayersCount(GraphOf(all), all, le, depth, p);
      }
    }
  }

  lemma {:induction false} UniqueAgrees(all: seq<Package>, p: Package, q: Package)
    requires UniqueNames(all) && p in all && q in all && p.short == q.short
    ensures p == q
  {
    var rest := all[1..];
    assert all == [all[0]] + rest;
    if p in rest && q in rest {
      UniqueAgrees(rest, p, q);
    } else {
      assert p in rest ==> p.short in Names(rest);
      assert q in rest ==> q.short in Names(rest);
    }
  }

  lemma SameGraph(all: seq<Package>, others: seq<Package>)
    requires UniqueNames(all) && UniqueNames(others) && multiset(all) == multiset(others)
    ensures GraphOf(all) == GraphOf(others)
  {
    SubGraph(all, others);
    SubGraph(others, all);
  }

  lemma SubGraph(all: seq<Package>, others: seq<Package>)
    requires UniqueNames(all) && UniqueNames(others) && multiset(all) == multiset(others)
    ensures forall x | x in GraphOf(all) :: x in GraphOf(others) && GraphOf(all)[x] == GraphOf(others)[x]
  {
    GraphOfUnique(all);
    GraphOfUnique(others);
    forall x | x in GraphOf(all) ensures x in GraphOf(others) && GraphOf(all)[x] == GraphOf(others)[x] {
      assert x in Names(all);
      var p :| p in all && p.short == x;
      assert p in multiset(all);
      assert p in others;
    }
  }

  lemma SameLayer(g: Graph<Name>, all: seq<Package>, others: seq<Package>, le: Comparison, depth: nat)
    requires TotalOrder(le) && UniqueNames(all) && multiset(all) == multiset(others)
    ensures Sorted(Layer(g, all, depth), le) == Sorted(Layer(g, others, depth), le)
  {
    var a, b := Layer(g, all, depth), Layer(g, others, depth);
    forall p ensures multiset(a)[p] == multiset(b)[p] {
      LayerCount(g, all, depth, p);
      LayerCount(g, others, depth, p);
    }
    assert multiset(a) == multiset(b);
    SortedAscends(a, le);
    SortedAscends(b, le);
    forall p, q | p in Sorted(a, le) && q in Sorted(a, le) && p.short == q.short ensures p == q {
      SortedHas(a, le, p);
      SortedHas(a, le, q);
      UniqueAgrees(all, p, q);
    }
    AscendingIsUnique(Sorted(a, le), Sorted(b, le), le);
  }

  lemma {:induction false} SameConcat(rounds: nat -> seq<Package>, others: nat -> seq<Package>, count: nat)
    requires forall d: nat | d < count :: rounds(d) == others(d)
    ensures Concat(rounds, count) == Concat(others, count)
  {
    if count > 0 { SameConcat(rounds, others, count - 1); }
  }

  lemma SameLayers(g: Graph<Name>, all: seq<Package>, others: seq<Package>, le: Comparison, depth: nat)
    requires TotalOrder(le) && UniqueNames(all) && multiset(all) == multiset(others)
    ensures Layers(g, all, le, depth) == Layers(g, others, le, depth)
  {
    forall d: nat | d < depth ensures SortedLayers(g, all, le)(d) == SortedLayers(g, others, le)(d) {
      SameLayer(g, all, others, le, d);
    }
    SameConcat(SortedLayers(g, all, le), SortedLayers(g, others, le), depth);
  }

  lemma {:induction false} EmptyConcat(rounds: nat -> seq<Package>, count: nat, more: nat)
    requires count <= more && forall d: nat | count <= d < more :: rounds(d) == []
    ensures Concat(rounds, more) == Concat(rounds, count)
    decreases more
  {
    if count < more { EmptyConcat(rounds, count, more - 1); }
  }

  /** Below the deepest package there is nothing. */
  lemma EmptyBelow(g: Graph<Name>, all: seq<Package>, le: Comparison, depth: nat, more: nat)
    requires depth <= more && forall p | p in all :: !Deeper(g, p.short, depth)
    ensures Layers(g, all, le, more) == Layers(g, all, le, depth)
  {
    forall d: nat | depth <= d < more ensures SortedLayers(g, all, le)(d) == [] {
      EmptyLayer(g, all, depth, d);
    }
    EmptyConcat(SortedLayers(g, all, le), depth, more);
  }

  lemma EmptyLayer(g: Graph<Name>, all: seq<Package>, depth: nat, d: nat)
    requires depth <= d && forall p | p in all :: !Deeper(g, p.short, depth)
    ensures Layer(g, all, d) == []
  {
    var layer := Layer(g, all, d);
    if layer != [] {
      assert layer[0] in layer;
      DeeperFallsTo(g, layer[0].short, depth, d);
    }
  }

  /** When names are unique and the comparison is total, the order of the input does not matter. */
  lemma InputOrderIsIrrelevant(all: seq<Package>, others: seq<Package>, le: Comparison, out: seq<Package>,
                               again: seq<Package>)
    requires TotalOrder(le) && UniqueNames(all) && UniqueNames(others) && multiset(all) == multiset(others)
    requires IsPackageOrder(all, le, out) && IsPackageOrder(others, le, again)
    ensures out == again
  {
    var m :| IsLayering(all, le, m, out);
    var n :| IsLayering(others, le, n, again);
    SameGraph(all, others);
    var g := GraphOf(all);
    SameLayers(g, all, others, le, m);
    SameLayers(g, all, others, le, n);
    if m <= n {
      EmptyBelow(g, all, le, m, n);
    } else {
      EmptyBelow(g, others, le, n, m);
    }
  }
}
