/** Walks in the graph an n-by-n weight matrix describes, and their weights.
    A walk is the sequence of vertices it visits; it has at least one edge.
    These definitions say what a shortest distance is, independently of the
    dynamic program that computes it. */
module Walks {
  import opened Weights

  /** Every row is as long as the matrix has rows. */
  predicate IsSquare<T>(m: seq<seq<T>>)
  {
    forall r | 0 <= r < |m| :: |m[r]| == |m|
  }

  /** Every vertex of p is one of 0 .. n-1. */
  predicate InRange(p: seq<int>, n: int)
  {
    forall t | 0 <= t < |p| :: 0 <= p[t] < n
  }

  /** p is a walk of at least one edge from a to b among the vertices 0 .. n-1. */
  predicate IsWalk(p: seq<int>, n: int, a: int, b: int)
  {
    |p| >= 2 && InRange(p, n) && p[0] == a && p[|p| - 1] == b
  }

  /** Every intermediate vertex of p (all but the two ends) is below k. */
  predicate InteriorBelow(p: seq<int>, k: int)
  {
    forall t | 0 < t < |p| - 1 :: p[t] < k
  }

  /** The sum of the weights of the edges p follows. */
  function PathWeight(g: seq<seq<Weight>>, p: seq<int>): (w: Weight)
    requires IsSquare(g) && |p| >= 2 && InRange(p, |g|)
    decreases |p|
  {
    var edge := g[p[0]][p[1]];
    if |p| == 2 then edge else Add(edge, PathWeight(g, p[1..]))
  }

  /** Walk p followed by walk q, where q starts where p ends. */
  function Join(p: seq<int>, q: seq<int>): (r: seq<int>)
    requires |p| >= 2 && |q| >= 2 && p[|p| - 1] == q[0]
    ensures |r| == |p| + |q| - 1 && r[0] == p[0] && r[1] == p[1] && r[|r| - 1] == q[|q| - 1]
    ensures forall n: int :: InRange(p, n) && InRange(q, n) ==> InRange(r, n)
  {
    p + q[1..]
  }

  /** The weight of a joined walk is the sum of the two weights. */
  lemma {:induction false} JoinWeight(g: seq<seq<Weight>>, p: seq<int>, q: seq<int>)
    requires IsSquare(g) && |p| >= 2 && |q| >= 2 && p[|p| - 1] == q[0]
    requires InRange(p, |g|) && InRange(q, |g|)
    ensures InRange(Join(p, q), |g|)
    ensures PathWeight(g, Join(p, q)) == Add(PathWeight(g, p), PathWeight(g, q))
    decreases |p|
  {
    var r := Join(p, q);
    if |p| == 2 {
      assert r[1..] == q;
    } else {
      assert r[1..] == Join(p[1..], q);
      JoinWeight(g, p[1..], q);
      AddAssociative(g[p[0]][p[1]], PathWeight(g, p[1..]), PathWeight(g, q));
    }
  }

  /** Cutting a walk at an intermediate vertex splits its weight in two. */
  lemma SplitWeight(g: seq<seq<Weight>>, p: seq<int>, f: int)
    requires IsSquare(g) && |p| >= 2 && InRange(p, |g|) && 0 < f < |p| - 1
    ensures IsWalk(p[..f + 1], |g|, p[0], p[f]) && IsWalk(p[f..], |g|, p[f], p[|p| - 1])
    ensures PathWeight(g, p) == Add(PathWeight(g, p[..f + 1]), PathWeight(g, p[f..]))
  {
    var p1, p2 := p[..f + 1], p[f..];
    forall t | 0 <= t < |p1| ensures 0 <= p1[t] < |g| {
      assert p1[t] == p[t];
    }
    forall t | 0 <= t < |p2| ensures 0 <= p2[t] < |g| {
      assert p2[t] == p[f + t];
    }
    assert p2[1..] == p[f + 1..];
    assert Join(p1, p2) == p[..f + 1] + p[f + 1..] == p;
    JoinWeight(g, p1, p2);
  }

  /** No closed walk has a negative weight. */
  ghost predicate NoNegativeCycle(g: seq<seq<Weight>>)
  {
    IsSquare(g) &&
    forall p, v :: IsWalk(p, |g|, v, v) ==> !Less(PathWeight(g, p), Fin(0))
  }
}
