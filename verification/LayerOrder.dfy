/**
 * The package order of scripts/package-graph.ts told from its result: longer chains of dependencies
 * stand behind shorter ones, and within one length the listed order of the groups decides.
 */
module LayerOrder {
  import opened Basics
  import opened Graphs
  import opened Sources
  import opened Sorting
  import opened PackageOrder

  // ---------------------------------------------------------------------------
  // Which of two packages goes first
  // ---------------------------------------------------------------------------

  /** The group is listed, and the other one is not listed before it. */
  ghost predicate ListedBefore(order: seq<string>, group: string, other: string) {
    exists x | 0 <= x < |order| :: order[x] == group && group != other && forall y | 0 <= y < x :: order[y] != other
  }

  /** Groups that the list does not tell apart. */
  predicate Level(order: seq<string>, group: string, other: string) {
    group == other || (group !in order && other !in order)
  }

  /** By the list, then by the collation of the groups, then by that of the names. */
  ghost predicate GoesFirst(order: seq<string>, locale: Collation, a: Package, b: Package) {
    || ListedBefore(order, a.group, b.group)
    || (Level(order, a.group, b.group) && locale(a.group, b.group) < 0)
    || (Level(order, a.group, b.group) && locale(a.group, b.group) == 0 && locale(a.short.text, b.short.text) < 0)
  }

  lemma {:induction false} IndexIsFirst(order: seq<string>, group: string)
    ensures var at := IndexOf(order, group);
      if at == -1 then group !in order
      else 0 <= at < |order| && order[at] == group && forall y | 0 <= y < at :: order[y] != group
  {
    if order != [] && order[0] != group {
      IndexIsFirst(order[1..], group);
      var at := IndexOf(order[1..], group);
      assert forall y | 0 < y < |order| :: order[y] == order[1..][y - 1];
      assert order == [order[0]] + order[1..];
    }
  }

  lemma ComparedByPlace(order: seq<string>, group: string, other: string)
    requires |order| < MAX_SAFE_INTEGER
    ensures Place(order, group) < Place(order, other) <==> ListedBefore(order, group, other)
    ensures Place(order, group) == Place(order, other) <==> Level(order, group, other)
  {
    IndexIsFirst(order, group);
    IndexIsFirst(order, other);
  }

  lemma CompareGoesFirst(order: seq<string>, locale: Collation, a: Package, b: Package)
    requires |order| < MAX_SAFE_INTEGER
    ensures Compare(a, b, order, locale) < 0 <==> GoesFirst(order, locale, a, b)
  {
    ComparedByPlace(order, a.group, b.group);
    ComparedByPlace(order, b.group, a.group);
  }

  // ---------------------------------------------------------------------------
  // The result, package by package
  // ---------------------------------------------------------------------------

  /** In which round a place of the result lies, and where in it. */
  lemma {:induction false} InRound(rounds: nat -> seq<Package>, count: nat, i: nat, j: nat)
    returns (d: nat, a: nat, e: nat, b: nat)
    requires i < j < |Concat(rounds, count)|
    ensures d <= e < count && (d == e ==> a < b) && a < |rounds(d)| && b < |rounds(e)|
    ensures rounds(d)[a] == Concat(rounds, count)[i] && rounds(e)[b] == Concat(rounds, count)[j]
  {
    var above, last := Concat(rounds, count - 1), rounds(count - 1);
    if j < |above| {
      d, a, e, b := InRound(rounds, count - 1, i, j);
    } else {
      e, b := count - 1, j - |above|;
      if i < |above| {
        d, a := InSomeRound(rounds, count - 1, i);
      } else {
        d, a := count - 1, i - |above|;
      }
    }
  }

  lemma {:induction false} InSomeRound(rounds: nat -> seq<Package>, count: nat, i: nat) returns (d: nat, a: nat)
    requires i < |Concat(rounds, count)|
    ensures d < count && a < |rounds(d)| && rounds(d)[a] == Concat(rounds, count)[i]
  {
    var above := Concat(rounds, count - 1);
    if i < |above| { d, a := InSomeRound(rounds, count - 1, i); } else { d, a := count - 1, i - |above|; }
  }

  /** Whatever chain the package has, the other one has too. */
  ghost predicate ChainsReach(g: Graph<Name>, x: Name, y: Name) {
    forall n: nat | HasChain(g, x, n) :: HasChain(g, y, n)
  }

  /** Of two packages in the result, the one in front has no longer chain of dependencies; where their
      longest chains have one length, it is the one that the list of groups and the collation put first. */
  lemma ResultIsInOrder(all: seq<Package>, order: seq<string>, locale: Collation, out: seq<Package>, i: nat, j: nat)
    requires UniqueNames(all) && Discerning(locale) && |order| < MAX_SAFE_INTEGER
    requires IsPackageOrder(all, NotAfter(order, locale), out) && i < j < |out|
    ensures ChainsReach(GraphOf(all), out[i].short, out[j].short)
    ensures ChainsReach(GraphOf(all), out[j].short, out[i].short) ==> GoesFirst(order, locale, out[i], out[j])
  {
    var g, le := GraphOf(all), NotAfter(order, locale);
    var depth :| IsLayering(all, le, depth, out);
    GraphOfUnique(all);
    ShallowIsClosed(all, depth);
    var d, a, e, b := InRound(SortedLayers(g, all, le), depth, i, j);
    RoundDepth(all, le, d, out[i]);
    RoundDepth(all, le, e, out[j]);
    ChainsByDepth(g, out[i].short, d, out[j].short, e);
    if d == e {
      SortedInRound(all, order, locale, d, a, b);
    }
  }

  lemma RoundDepth(all: seq<Package>, le: Comparison, d: nat, p: Package)
    requires IsGraphOf(GraphOf(all), all) && Closed(GraphOf(all)) && p in SortedLayers(GraphOf(all), all, le)(d)
    ensures p in all && HasChain(GraphOf(all), p.short, d) && !HasChain(GraphOf(all), p.short, d + 1)
    ensures forall n: nat :: HasChain(GraphOf(all), p.short, n) <==> n <= d
  {
    var g := GraphOf(all);
    RoundHas(g, all, le, d, p);
    DeeperIsWalk(g, p.short, d);
    DeeperIsWalk(g, p.short, d + 1);
    forall n: nat ensures HasChain(g, p.short, n) <==> n <= d {
      DeeperIsWalk(g, p.short, n);
      if n <= d {
        DeeperFallsTo(g, p.short, n, d);
      } else if Deeper(g, p.short, n) {
        DeeperFallsTo(g, p.short, d + 1, n);
      }
    }
  }

  lemma ChainsByDepth(g: Graph<Name>, x: Name, d: nat, y: Name, e: nat)
    requires forall n: nat :: HasChain(g, x, n) <==> n <= d
    requires forall n: nat :: HasChain(g, y, n) <==> n <= e
    ensures ChainsReach(g, x, y) <==> d <= e
    ensures ChainsReach(g, y, x) <==> e <= d
  {
    if ChainsReach(g, x, y) { assert HasChain(g, x, d); }
    if ChainsReach(g, y, x) { assert HasChain(g, y, e); }
  }

  lemma SortedInRound(all: seq<Package>, order: seq<string>, locale: Collation, d: nat, a: nat, b: nat)
    requires UniqueNames(all) && Discerning(locale) && |order| < MAX_SAFE_INTEGER
    requires a < b < |SortedLayers(GraphOf(all), all, NotAfter(order, locale))(d)|
    ensures var round := SortedLayers(GraphOf(all), all, NotAfter(order, locale))(d);
      GoesFirst(order, locale, round[a], round[b])
  {
    var g, le := GraphOf(all), NotAfter(order, locale);
    var layer, round := Layer(g, all, d), SortedLayers(g, all, le)(d);
    CompareIsTotal(order, locale);
    SortedAscends(layer, le);
    AscendsPairwise(round, le, a, b);
    LayerIsUnique(g, all, d);
    DifferentNames(layer, round, a, b);
    CompareGoesFirst(order, locale, round[a], round[b]);
    LevelIsSameName(round[a], round[b], order, locale);
  }

  lemma LevelIsSameName(a: Package, b: Package, order: seq<string>, locale: Collation)
    requires Discerning(locale)
    ensures Compare(a, b, order, locale) == 0 ==> a.short == b.short
  {
  }

  lemma {:induction false} LayerIsUnique(g: Graph<Name>, all: seq<Package>, d: nat)
    requires UniqueNames(all)
    ensures UniqueNames(Layer(g, all, d))
  {
    if all != [] {
      LayerIsUnique(g, all[1..], d);
      UniqueFirst(all[0], Layer(g, all[1..], d));
    }
  }

  lemma DifferentNames(layer: seq<Package>, round: seq<Package>, a: nat, b: nat)
    requires UniqueNames(layer) && multiset(layer) == multiset(round) && a < b < |round|
    ensures round[a].short != round[b].short
  {
    if round[a].short == round[b].short {
      assert round[a] in multiset(layer) && round[b] in multiset(layer);
      UniqueAgrees(layer, round[a], round[b]);
      TwiceThere(round, a, b);
      OnlyOnce(layer, round[a]);
    }
  }

  lemma TwiceThere(round: seq<Package>, a: nat, b: nat)
    requires a < b < |round| && round[a] == round[b]
    ensures multiset(round)[round[a]] >= 2
  {
    assert round == round[..a] + [round[a]] + round[a + 1..b] + [round[b]] + round[b + 1..];
  }

  lemma {:induction false} OnlyOnce(layer: seq<Package>, p: Package)
    requires UniqueNames(layer)
    ensures multiset(layer)[p] <= 1
  {
    if layer != [] {
      OnlyOnce(layer[1..], p);
      assert layer == [layer[0]] + layer[1..];
      assert p in layer[1..] ==> p.short in Names(layer[1..]);
    }
  }
}
