/** Small shared vocabulary: optional values, first-match search and filtering of sequences. */
module Basics {

  /** `Number.MAX_SAFE_INTEGER`. */
  const MAX_SAFE_INTEGER: nat := 9_007_199_254_740_991

  function Smaller(a: nat, b: nat): nat {
    if a < b then a else b
  }

  function Larger(a: nat, b: nat): nat {
    if a < b then b else a
  }

  datatype Option<+T> = None | Some(value: T)

  /** The first element satisfying `p`, as `Array.prototype.find` returns it. */
  function Find<T>(xs: seq<T>, p: T -> bool): (r: Option<T>)
    ensures r.Some? ==> r.value in xs && p(r.value)
    ensures r.None? ==> forall x | x in xs :: !p(x)
  {
    if xs == [] then None
    else if p(xs[0]) then Some(xs[0])
    else Find(xs[1..], p)
  }

  /** The elements satisfying `p`, in order, as `Array.prototype.filter` returns them. */
  function Filter<T>(xs: seq<T>, p: T -> bool): (r: seq<T>)
    ensures forall x | x in r :: x in xs && p(x)
    ensures forall x | x in xs && p(x) :: x in r
  {
    if xs == [] then []
    else (if p(xs[0]) then [xs[0]] else []) + Filter(xs[1..], p)
  }

  /** It is the first one. */
  lemma {:induction false} FindIsFirst<T>(xs: seq<T>, p: T -> bool) returns (i: nat)
    requires Find(xs, p).Some?
    ensures i < |xs| && xs[i] == Find(xs, p).value && forall j | 0 <= j < i :: !p(xs[j])
  {
    if p(xs[0]) {
      i := 0;
    } else {
      i := FindIsFirst(xs[1..], p);
      assert forall j | 0 < j < i + 1 :: xs[j] == xs[1..][j - 1];
      i := i + 1;
    }
  }

  /** `ys` lists the elements of `xs` satisfying `p`, at these places, in order. */
  ghost predicate Selects<T>(xs: seq<T>, p: T -> bool, ys: seq<T>, places: seq<nat>) {
    && |ys| == |places|
    && (forall k | 0 <= k < |places| :: places[k] < |xs| && ys[k] == xs[places[k]])
    && (forall j, k | 0 <= j < k < |places| :: places[j] < places[k])
    && forall i | 0 <= i < |xs| :: p(xs[i]) <==> i in places
  }

  lemma {:induction false} FilterSelects<T>(xs: seq<T>, p: T -> bool) returns (places: seq<nat>)
    ensures Selects(xs, p, Filter(xs, p), places)
  {
    if xs == [] {
      places := [];
    } else {
      var behind := FilterSelects(xs[1..], p);
      places := (if p(xs[0]) then [0] else []) + Moved(behind);
      FilterFirst(xs, p, Filter(xs[1..], p), behind);
    }
  }

  lemma FilterFirst<T>(xs: seq<T>, p: T -> bool, ys: seq<T>, behind: seq<nat>)
    requires xs != [] && Selects(xs[1..], p, ys, behind)
    ensures Selects(xs, p, (if p(xs[0]) then [xs[0]] else []) + ys, (if p(xs[0]) then [0] else []) + Moved(behind))
  {
    SelectsBehind(xs, p, ys, behind);
    if p(xs[0]) {
      SelectsFirst(xs, p, ys, Moved(behind));
    } else {
      assert [] + ys == ys && [] + Moved(behind) == Moved(behind);
    }
  }

  function Moved(places: seq<nat>): (moved: seq<nat>)
    ensures |moved| == |places| && forall k | 0 <= k < |places| :: moved[k] == places[k] + 1
  {
    seq(|places|, k requires 0 <= k < |places| => places[k] + 1)
  }

  lemma SelectsBehind<T>(xs: seq<T>, p: T -> bool, ys: seq<T>, behind: seq<nat>)
    requires xs != [] && Selects(xs[1..], p, ys, behind)
    ensures |ys| == |behind|
    ensures forall k | 0 <= k < |behind| :: 0 < Moved(behind)[k] < |xs| && ys[k] == xs[Moved(behind)[k]]
    ensures forall i | 0 < i < |xs| :: p(xs[i]) <==> i in Moved(behind)
  {
    var moved := Moved(behind);
    forall i | 0 < i < |xs| ensures p(xs[i]) <==> i in moved {
      assert xs[i] == xs[1..][i - 1];
      if i - 1 in behind {
        var k :| 0 <= k < |behind| && behind[k] == i - 1;
        assert moved[k] == i;
      }
      if i in moved {
        var k :| 0 <= k < |moved| && moved[k] == i;
        assert behind[k] == i - 1;
      }
    }
  }

  lemma SelectsFirst<T>(xs: seq<T>, p: T -> bool, ys: seq<T>, moved: seq<nat>)
    requires xs != [] && p(xs[0]) && |ys| == |moved|
    requires forall k | 0 <= k < |moved| :: 0 < moved[k] < |xs| && ys[k] == xs[moved[k]]
    requires forall j, k | 0 <= j < k < |moved| :: moved[j] < moved[k]
    requires forall i | 0 < i < |xs| :: p(xs[i]) <==> i in moved
    ensures Selects(xs, p, [xs[0]] + ys, [0] + moved)
  {
  }
}
