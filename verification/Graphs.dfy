/**
 * Finite directed graphs given by ordered successor lists. Walks, cycles and
 * reachability are the reference notions that the dependency validator, the
 * scheduler, the topological sort and the export search are measured against.
 */
module Graphs {
  import opened Basics

  type Graph<!N(==)> = map<N, seq<N>>

  predicate Edge<N(==)>(g: Graph<N>, x: N, y: N) {
    x in g && y in g[x]
  }

  ghost predicate IsWalk<N>(g: Graph<N>, w: seq<N>) {
    |w| > 0 && forall i, j {:trigger Edge(g, w[i], w[j])} | 0 <= i < j < |w| && j == i + 1 :: Edge(g, w[i], w[j])
  }

  /** A closed walk: it follows at least one edge and ends where it started. */
  ghost predicate IsCycle<N>(g: Graph<N>, w: seq<N>) {
    |w| >= 2 && IsWalk(g, w) && w[0] == w[|w| - 1]
  }

  ghost predicate Acyclic<N(!new)>(g: Graph<N>) {
    forall w: seq<N> :: !IsCycle(g, w)
  }

  ghost predicate Connects<N>(g: Graph<N>, w: seq<N>, x: N, y: N) {
    IsWalk(g, w) && w[0] == x && w[|w| - 1] == y
  }

  /** `y` can be reached from `x` along zero or more edges. */
  ghost predicate Reaches<N(!new)>(g: Graph<N>, x: N, y: N) {
    exists w: seq<N> :: Connects(g, w, x, y)
  }

  lemma ReachesSelf<N(!new)>(g: Graph<N>, x: N)
    ensures Reaches(g, x, x)
  {
    assert Connects(g, [x], x, x);
  }

  lemma ReachesStep<N(!new)>(g: Graph<N>, x: N, y: N, z: N)
    requires Edge(g, x, y) && Reaches(g, y, z)
    ensures Reaches(g, x, z)
  {
    var w :| Connects(g, w, y, z);
    assert Connects(g, [x] + w, x, z);
  }

  lemma ReachesExtend<N(!new)>(g: Graph<N>, x: N, y: N, z: N)
    requires Reaches(g, x, y) && Edge(g, y, z)
    ensures Reaches(g, x, z)
  {
    var w :| Connects(g, w, x, y);
    assert Connects(g, w + [z], x, z);
  }

  /** A set closed under edges that contains `x` contains everything `x` reaches. */
  lemma ReachesStaysInside<N(!new)>(g: Graph<N>, inside: set<N>, x: N, y: N)
    requires Reaches(g, x, y) && x in inside
    requires forall a, b | a in inside && Edge(g, a, b) :: b in inside
    ensures y in inside
  {
    var w :| Connects(g, w, x, y);
    WalkStaysInside(g, inside, w);
  }

  lemma {:induction false} WalkStaysInside<N>(g: Graph<N>, inside: set<N>, w: seq<N>)
    requires IsWalk(g, w) && w[0] in inside
    requires forall a, b | a in inside && Edge(g, a, b) :: b in inside
    ensures w[|w| - 1] in inside
    decreases |w|
  {
    if |w| > 1 {
      assert Edge(g, w[0], w[1]);
      WalkStaysInside(g, inside, w[1..]);
    }
  }

  /** More picks than there are candidates repeat a candidate. */
  lemma {:induction false} Pigeonhole<N>(s: set<N>, w: seq<N>)
    requires |w| > |s| && forall i | 0 <= i < |w| :: w[i] in s
    ensures exists i, j :: 0 <= i < j < |w| && w[i] == w[j]
    decreases |s|
  {
    var last := w[|w| - 1];
    if i :| 0 <= i < |w| - 1 && w[i] == last {
    } else {
      var rest := w[..|w| - 1];
      Pigeonhole(s - {last}, rest);
      var i, j :| 0 <= i < j < |rest| && rest[i] == rest[j];
      assert w[i] == w[j];
    }
  }

  ghost predicate HasEdgeInto<N>(g: Graph<N>, x: N, s: set<N>) {
    exists y :: y in s && Edge(g, x, y)
  }

  lemma {:induction false} WalkInTrap<N>(g: Graph<N>, trap: set<N>, n: nat) returns (w: seq<N>)
    requires trap != {}
    requires forall x | x in trap :: HasEdgeInto(g, x, trap)
    ensures |w| == n + 1 && IsWalk(g, w) && forall i | 0 <= i < |w| :: w[i] in trap
  {
    if n == 0 {
      var x :| x in trap;
      w := [x];
    } else {
      var front := WalkInTrap(g, trap, n - 1);
      assert HasEdgeInto(g, front[n - 1], trap);
      var y :| y in trap && Edge(g, front[n - 1], y);
      w := front + [y];
    }
  }

  /** A nonempty finite set in which every node has a successor contains a cycle. */
  lemma TrapHasCycle<N(!new)>(g: Graph<N>, trap: set<N>)
    requires trap != {}
    requires forall x | x in trap :: HasEdgeInto(g, x, trap)
    ensures !Acyclic(g)
  {
    var w := WalkInTrap(g, trap, |trap|);
    Pigeonhole(trap, w);
    var i, j :| 0 <= i < j < |w| && w[i] == w[j];
    PartIsWalk(g, w, i, j);
    assert IsCycle(g, w[i..j + 1]);
  }

  lemma PartIsWalk<N>(g: Graph<N>, w: seq<N>, i: nat, j: nat)
    requires IsWalk(g, w) && i < j < |w|
    ensures IsWalk(g, w[i..j + 1])
  {
    var part := w[i..j + 1];
    forall a, b | 0 <= a < b < |part| && b == a + 1 ensures Edge(g, part[a], part[b]) {
      assert Edge(g, w[i + a], w[i + b]);
    }
  }

  /** `rank` descends along every edge between graph nodes it covers. */
  ghost predicate Ranked<N>(g: Graph<N>, rank: map<N, nat>) {
    forall x, y {:trigger Edge(g, x, y)} | x in rank && y in g && Edge(g, x, y) :: y in rank && rank[y] < rank[x]
  }

  lemma {:induction false} RankFalls<N>(g: Graph<N>, rank: map<N, nat>, w: seq<N>, i: nat)
    requires Ranked(g, rank) && g.Keys <= rank.Keys
    requires IsWalk(g, w) && 0 < i < |w| && forall k | 0 <= k < |w| :: w[k] in g
    ensures rank[w[i]] < rank[w[0]]
  {
    assert Edge(g, w[i - 1], w[i]);
    if i > 1 {
      RankFalls(g, rank, w, i - 1);
    }
  }

  lemma RankedIsAcyclic<N(!new)>(g: Graph<N>, rank: map<N, nat>)
    requires Ranked(g, rank) && g.Keys <= rank.Keys
    ensures Acyclic(g)
  {
    forall w: seq<N> ensures !IsCycle(g, w) {
      if IsCycle(g, w) {
        forall k | 0 <= k < |w| ensures w[k] in g {
          if k < |w| - 1 {
            assert Edge(g, w[k], w[k + 1]);
          } else {
            assert Edge(g, w[0], w[1]);
          }
        }
        RankFalls(g, rank, w, |w| - 1);
      }
    }
  }
}
