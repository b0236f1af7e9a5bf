/** johnsonsAlgorithm itself: it allocates the distance and next-hop matrices,
    fills them from the weight matrix, then relaxes them in place in the k, i, j
    triple loop. Despite its name it is the Floyd-Warshall dynamic program. */
module Johnson {
  import opened Weights
  import opened Walks
  import opened ShortestPaths

  /** The rows of a two-dimensional array, as a value. */
  ghost function Contents<T>(a: array2<T>): (m: seq<seq<T>>)
    reads a
    ensures |m| == a.Length0
    ensures forall r | 0 <= r < |m| :: |m[r]| == a.Length1
    ensures forall r, c | 0 <= r < a.Length0 && 0 <= c < a.Length1 :: m[r][c] == a[r, c]
  {
    seq(a.Length0, r requires 0 <= r < a.Length0 reads a =>
      seq(a.Length1, c requires 0 <= c < a.Length1 reads a => a[r, c]))
  }

  /** dist and next hold exactly the matrices of s. */
  ghost predicate Holds(dist: array2<Weight>, next: array2<int>, s: State)
    reads dist, next
  {
    WellFormed(s) &&
    dist.Length0 == Size(s) && dist.Length1 == Size(s) &&
    next.Length0 == Size(s) && next.Length1 == Size(s) &&
    forall a, b {:trigger dist[a, b]} | 0 <= a < Size(s) && 0 <= b < Size(s) ::
      dist[a, b] == s.dist[a][b] && next[a, b] == s.next[a][b]
  }

  /** Returns the distance matrix and the 1-based next-hop matrix for the
      square weight matrix graph, in two new arrays; graph is left as it was. */
  method JohnsonsAlgorithm(graph: array2<Weight>) returns (dist: array2<Weight>, next: array2<int>)
    requires graph.Length0 == graph.Length1
    ensures fresh(dist) && fresh(next)
    ensures dist.Length0 == dist.Length1 == next.Length0 == next.Length1 == graph.Length0
    ensures Holds(dist, next, FloydWarshall(Contents(graph)))
  {
    var n := graph.Length0;
    ghost var g := Contents(graph);
    dist := new Weight[n, n];
    next := new int[n, n];

    InitialiseFrom(graph, dist, next);
    AllRoundsInPlace(dist, next, Init(g));
  }

  /** The k loop: one round per intermediate vertex, in increasing order. */
  method AllRoundsInPlace(dist: array2<Weight>, next: array2<int>, ghost s0: State)
    requires Holds(dist, next, s0)
    modifies dist, next
    ensures Holds(dist, next, Rounds(s0, Size(s0)))
  {
    var n := dist.Length0;
    for k := 0 to n
      invariant Holds(dist, next, Rounds(s0, k))
    {
      RoundInPlace(dist, next, Rounds(s0, k), k);
    }
  }

  /** One iteration of the k loop: sweep the rows, trying vertex k as a
      waypoint for every pair. */
  method RoundInPlace(dist: array2<Weight>, next: array2<int>, ghost start: State, k: nat)
    requires Holds(dist, next, start) && k < Size(start)
    modifies dist, next
    ensures Holds(dist, next, RelaxRound(start, k, Size(start)))
  {
    var n := dist.Length0;
    for i := 0 to n
      invariant Holds(dist, next, RelaxRound(start, k, i))
    {
      ghost var before := RelaxRound(start, k, i);
      assert Size(before) == n;
      RowInPlace(dist, next, before, k, i);
    }
  }

  /** One iteration of the i loop: relax row i left to right through vertex k. */
  method RowInPlace(dist: array2<Weight>, next: array2<int>, ghost before: State, k: nat, i: nat)
    requires Holds(dist, next, before) && k < Size(before) && i < Size(before)
    modifies dist, next
    ensures Holds(dist, next, RelaxRow(before, k, i, Size(before)))
  {
    var n := dist.Length0;
    for j := 0 to n
      invariant Holds(dist, next, RelaxRow(before, k, i, j))
    {
      ghost var cur := RelaxRow(before, k, i, j);
      assert Size(cur) == n;
      RelaxInPlace(dist, next, cur, k, i, j);
    }
  }

  /** The initialisation loop: copy the weights and set every next hop to the
      destination's 1-based label. */
  method InitialiseFrom(graph: array2<Weight>, dist: array2<Weight>, next: array2<int>)
    requires graph.Length0 == graph.Length1
    requires dist.Length0 == dist.Length1 == next.Length0 == next.Length1 == graph.Length0
    requires dist != graph
    modifies dist, next
    ensures Holds(dist, next, Init(Contents(graph)))
  {
    var n := graph.Length0;
    for i := 0 to n
      invariant forall a, b | 0 <= a < i && 0 <= b < n :: dist[a, b] == graph[a, b] && next[a, b] == b + 1
    {
      for j := 0 to n
        invariant forall a, b | 0 <= a < i && 0 <= b < n :: dist[a, b] == graph[a, b] && next[a, b] == b + 1
        invariant forall b | 0 <= b < j :: dist[i, b] == graph[i, b] && next[i, b] == b + 1
      {
        dist[i, j] := graph[i, j];
        next[i, j] := j + 1;
      }
    }
  }

  /** The body of the innermost loop: relax entry (i, j) through vertex k in
      place, replacing it only on a strict improvement. */
  method RelaxInPlace(dist: array2<Weight>, next: array2<int>, ghost s: State, k: nat, i: nat, j: nat)
    requires Holds(dist, next, s) && k < Size(s) && i < Size(s) && j < Size(s)
    modifies dist, next
    ensures Holds(dist, next, Relax(s, k, i, j))
  {
    ghost var after := Relax(s, k, i, j);
    RelaxEffect(s, k, i, j);
    var through := Add(dist[i, k], dist[k, j]);
    if Less(through, dist[i, j]) {
      dist[i, j] := through;
      next[i, j] := next[i, k];
    }
    forall a, b | 0 <= a < Size(s) && 0 <= b < Size(s)
      ensures dist[a, b] == after.dist[a][b] && next[a, b] == after.next[a][b]
    {
      if a != i || b != j {
        assert after.dist[a][b] == s.dist[a][b] && after.next[a][b] == s.next[a][b];
      }
    }
  }
}
