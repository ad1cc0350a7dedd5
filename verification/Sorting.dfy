/** `Array.prototype.sort` with a comparison: stable, here by insertion. */
module Sorting {
  import opened Basics

  /** `compare(a, b) <= 0`. */
  type Order<!T> = (T, T) -> bool

  ghost predicate IsOrder<T(!new)>(le: Order<T>) {
    && (forall a, b, c {:trigger le(a, b), le(b, c)} :: le(a, b) && le(b, c) ==> le(a, c))
    && (forall a, b {:trigger le(a, b)} :: le(a, b) || le(b, a))
  }

  function Sorted<T>(xs: seq<T>, le: Order<T>): (sorted: seq<T>)
    ensures multiset(sorted) == multiset(xs)
  {
    if xs == [] then []
    else
      assert xs == [xs[0]] + xs[1..];
      Insert(xs[0], Sorted(xs[1..], le), le)
  }

  function Insert<T>(x: T, xs: seq<T>, le: Order<T>): (inserted: seq<T>)
    ensures multiset(inserted) == multiset(xs) + multiset{x}
  {
    if xs == [] || le(x, xs[0]) then [x] + xs
    else
      assert xs == [xs[0]] + xs[1..];
      [xs[0]] + Insert(x, xs[1..], le)
  }

  lemma SortedHas<T>(xs: seq<T>, le: Order<T>, x: T)
    ensures x in Sorted(xs, le) <==> x in xs
  {
    assert x in Sorted(xs, le) <==> x in multiset(Sorted(xs, le));
  }

  ghost predicate AtMost<T>(x: T, xs: seq<T>, le: Order<T>) {
    forall y | y in xs :: le(x, y)
  }

  /** Sortedness by the head and the rest. */
  ghost predicate Ascends<T>(xs: seq<T>, le: Order<T>)
    decreases |xs|
  {
    xs == [] || (AtMost(xs[0], xs[1..], le) && Ascends(xs[1..], le))
  }

  lemma {:induction false} InsertAscends<T(!new)>(x: T, xs: seq<T>, le: Order<T>)
    requires IsOrder(le) && Ascends(xs, le)
    ensures Ascends(Insert(x, xs, le), le)
  {
    if xs != [] {
      var inserted := Insert(x, xs, le);
      if le(x, xs[0]) {
        assert inserted[1..] == xs;
        assert AtMost(x, xs, le) by {
          forall y | y in xs ensures le(x, y) { assert y == xs[0] || y in xs[1..]; }
        }
      } else {
        var rest := Insert(x, xs[1..], le);
        InsertAscends(x, xs[1..], le);
        assert inserted[1..] == rest;
        forall y | y in rest ensures le(xs[0], y) {
          assert y in multiset(rest);
        }
      }
    }
  }

  lemma {:induction false} SortedAscends<T(!new)>(xs: seq<T>, le: Order<T>)
    requires IsOrder(le)
    ensures Ascends(Sorted(xs, le), le)
  {
    if xs != [] {
      SortedAscends(xs[1..], le);
      InsertAscends(xs[0], Sorted(xs[1..], le), le);
    }
  }

  lemma Uncons<T>(xs: seq<T>)
    requires xs != []
    ensures xs == [xs[0]] + xs[1..] && multiset(xs[1..]) == multiset(xs) - multiset{xs[0]}
    ensures forall x | x in xs :: x == xs[0] || x in xs[1..]
  {
    assert xs == [xs[0]] + xs[1..];
  }

  /** Where no two elements are level, there is one way to sort. */
  lemma {:induction false} AscendingIsUnique<T(!new)>(xs: seq<T>, ys: seq<T>, le: Order<T>)
    requires IsOrder(le) && Ascends(xs, le) && Ascends(ys, le)
    requires multiset(xs) == multiset(ys)
    requires forall x, y | x in xs && y in xs && le(x, y) && le(y, x) :: x == y
    ensures xs == ys
    decreases |xs|
  {
    assert |xs| == |multiset(xs)| == |multiset(ys)| == |ys|;
    if xs != [] {
      Uncons(xs);
      Uncons(ys);
      assert xs[0] in multiset(ys) && ys[0] in multiset(xs);
      assert le(xs[0], ys[0]);
      assert le(ys[0], xs[0]);
      AscendingIsUnique(xs[1..], ys[1..], le);
    }
  }

  lemma {:induction false} PairwiseAscends<T>(xs: seq<T>, le: Order<T>)
    requires forall i, j | 0 <= i < j < |xs| :: le(xs[i], xs[j])
    ensures Ascends(xs, le)
    decreases |xs|
  {
    if xs != [] {
      assert AtMost(xs[0], xs[1..], le) by {
        forall y | y in xs[1..] ensures le(xs[0], y) {
          var j: nat :| j < |xs[1..]| && xs[1..][j] == y;
          assert le(xs[0], xs[j + 1]);
        }
      }
      PairwiseAscends(xs[1..], le);
    }
  }

  lemma {:induction false} AscendsPairwise<T>(xs: seq<T>, le: Order<T>, i: nat, j: nat)
    requires Ascends(xs, le) && i < j < |xs|
    ensures le(xs[i], xs[j])
    decreases |xs|
  {
    if i == 0 {
      assert xs[j] == xs[1..][j - 1];
    } else {
      AscendsPairwise(xs[1..], le, i - 1, j - 1);
    }
  }

  /** Neither goes before the other. */
  predicate Tied<T>(le: Order<T>, a: T, b: T) {
    le(a, b) && le(b, a)
  }

  lemma {:induction false} InsertIsStable<T(!new)>(x: T, xs: seq<T>, le: Order<T>, t: T)
    requires IsOrder(le)
    ensures Filter(Insert(x, xs, le), y => Tied(le, t, y))
         == (if Tied(le, t, x) then [x] else []) + Filter(xs, y => Tied(le, t, y))
  {
    if xs == [] || le(x, xs[0]) {
      assert ([x] + xs)[1..] == xs;
    } else {
      InsertIsStable(x, xs[1..], le, t);
      var inserted := Insert(x, xs, le);
      assert inserted == [xs[0]] + Insert(x, xs[1..], le);
      assert inserted[1..] == Insert(x, xs[1..], le);
      if Tied(le, t, x) { assert !Tied(le, t, xs[0]) by { assert le(xs[0], x); } }
    }
  }

  /** Sorting is stable: what is tied keeps its order. */
  lemma {:induction false} SortingIsStable<T(!new)>(xs: seq<T>, le: Order<T>, t: T)
    requires IsOrder(le)
    ensures Filter(Sorted(xs, le), y => Tied(le, t, y)) == Filter(xs, y => Tied(le, t, y))
  {
    if xs != [] {
      SortingIsStable(xs[1..], le, t);
      InsertIsStable(xs[0], Sorted(xs[1..], le), le, t);
    }
  }
}
