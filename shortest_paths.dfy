/** A value-level reference model of the triple loop of johnsonsAlgorithm
    (main.js:78-87), step by step and in the same order, so that the reads of
    entries updated earlier in the same round are reproduced exactly. The
    lemmas below state what the two result matrices mean. */
module ShortestPaths {
  import opened Weights
  import opened Walks

  /** The distance matrix and the 1-based next-hop matrix. */
  datatype State = State(dist: seq<seq<Weight>>, next: seq<seq<int>>)

  predicate WellFormed(s: State)
  {
    IsSquare(s.dist) && IsSquare(s.next) && |s.next| == |s.dist|
  }

  function Size(s: State): (n: nat)
  {
    |s.dist|
  }

  /** The matrices after the initialisation loop: a copy of the weights, and next
      hop j + 1 (the 1-based label of the destination) for every pair. */
  function Init(g: seq<seq<Weight>>): (s: State)
    requires IsSquare(g)
    ensures WellFormed(s) && Size(s) == |g| && s.dist == g
    ensures forall i, j | 0 <= i < |g| && 0 <= j < |g| :: s.next[i][j] == j + 1
  {
    State(g, seq(|g|, i => seq(|g|, j => j + 1)))
  }

  /** One body of the innermost loop: try vertex k as a waypoint from i to j. */
  function Relax(s: State, k: nat, i: nat, j: nat): (r: State)
    requires WellFormed(s) && k < Size(s) && i < Size(s) && j < Size(s)
    ensures WellFormed(r) && Size(r) == Size(s)
  {
    var through := Add(s.dist[i][k], s.dist[k][j]);
    if Less(through, s.dist[i][j]) then
      State(s.dist[i := s.dist[i][j := through]], s.next[i := s.next[i][j := s.next[i][k]]])
    else
      s
  }

  /** What one step does: the entry (i, j) changes exactly when the route
      through k is strictly shorter, and then it takes that route's length and
      the next hop towards k; an equally long route changes nothing; no other
      entry changes. */
  lemma RelaxEffect(s: State, k: nat, i: nat, j: nat)
    requires WellFormed(s) && k < Size(s) && i < Size(s) && j < Size(s)
    ensures var r := Relax(s, k, i, j);
      && (r == s <==> !Less(Add(s.dist[i][k], s.dist[k][j]), s.dist[i][j]))
      && (r != s ==> r.dist[i][j] == Add(s.dist[i][k], s.dist[k][j]) &&
                     Less(r.dist[i][j], s.dist[i][j]) && r.next[i][j] == s.next[i][k])
      && (forall a, b | 0 <= a < Size(s) && 0 <= b < Size(s) && (a != i || b != j) ::
            r.dist[a][b] == s.dist[a][b] && r.next[a][b] == s.next[a][b])
  {
  }

  /** Round k, row i, after the entries j' < j have been tried. */
  function RelaxRow(s: State, k: nat, i: nat, j: nat): (r: State)
    requires WellFormed(s) && k < Size(s) && i < Size(s) && j <= Size(s)
    ensures WellFormed(r) && Size(r) == Size(s)
    decreases j
  {
    if j == 0 then s else Relax(RelaxRow(s, k, i, j - 1), k, i, j - 1)
  }

  /** Round k after the rows i' < i have been swept. */
  function RelaxRound(s: State, k: nat, i: nat): (r: State)
    requires WellFormed(s) && k < Size(s) && i <= Size(s)
    ensures WellFormed(r) && Size(r) == Size(s)
    decreases i
  {
    if i == 0 then s else RelaxRow(RelaxRound(s, k, i - 1), k, i - 1, Size(s))
  }

  /** The matrices after the rounds k' < k have run. */
  function Rounds(s: State, k: nat): (r: State)
    requires WellFormed(s) && k <= Size(s)
    ensures WellFormed(r) && Size(r) == Size(s)
    decreases k
  {
    if k == 0 then s else RelaxRound(Rounds(s, k - 1), k - 1, Size(s))
  }

  /** The two matrices johnsonsAlgorithm returns for weight matrix g. */
  function FloydWarshall(g: seq<seq<Weight>>): (r: State)
    requires IsSquare(g)
    ensures WellFormed(r) && Size(r) == |g|
  {
    Rounds(Init(g), |g|)
  }

  /** A row sweep of round k changes only row i, and only the entries it has
      reached so far: every other row and the columns j and beyond are as before. */
  lemma {:induction false} RowFrame(s: State, k: nat, i: nat, j: nat)
    requires WellFormed(s) && k < Size(s) && i < Size(s) && j <= Size(s)
    ensures var r := RelaxRow(s, k, i, j);
      forall a, b | 0 <= a < Size(s) && 0 <= b < Size(s) && (a != i || j <= b) ::
        r.dist[a][b] == s.dist[a][b] && r.next[a][b] == s.next[a][b]
    decreases j
  {
    if j > 0 {
      RowFrame(s, k, i, j - 1);
      RelaxEffect(RelaxRow(s, k, i, j - 1), k, i, j - 1);
    }
  }

  /** Round k changes only the rows it has swept so far: rows i and beyond are
      as before. */
  lemma {:induction false} RoundFrame(s: State, k: nat, i: nat)
    requires WellFormed(s) && k < Size(s) && i <= Size(s)
    ensures var r := RelaxRound(s, k, i);
      forall a, b | i <= a < Size(s) && 0 <= b < Size(s) ::
        r.dist[a][b] == s.dist[a][b] && r.next[a][b] == s.next[a][b]
    decreases i
  {
    if i > 0 {
      RoundFrame(s, k, i - 1);
      RowFrame(RelaxRound(s, k, i - 1), k, i - 1, Size(s));
    }
  }

  // ---------------------------------------------------------------------
  // Distances only decrease, and a next hop changes only with its distance.

  /** t is s after some steps: no entry of t is above the one in s, and where
      the distance is unchanged the next hop is too. */
  ghost predicate Descends(s: State, t: State)
  {
    WellFormed(s) && WellFormed(t) && Size(t) == Size(s) &&
    forall a, b | 0 <= a < Size(s) && 0 <= b < Size(s) :: EntryDescends(s, t, a, b)
  }

  ghost predicate EntryDescends(s: State, t: State, a: nat, b: nat)
    requires WellFormed(s) && WellFormed(t) && Size(t) == Size(s) && a < Size(s) && b < Size(s)
  {
    Le(t.dist[a][b], s.dist[a][b]) &&
    (t.dist[a][b] == s.dist[a][b] ==> t.next[a][b] == s.next[a][b])
  }

  lemma DescendsTransitive(s: State, m: State, t: State)
    requires Descends(s, m) && Descends(m, t)
    ensures Descends(s, t)
  {
    forall a, b | 0 <= a < Size(s) && 0 <= b < Size(s)
      ensures EntryDescends(s, t, a, b)
    {
      assert EntryDescends(s, m, a, b) && EntryDescends(m, t, a, b);
      LeTransitive(t.dist[a][b], m.dist[a][b], s.dist[a][b]);
      if t.dist[a][b] == s.dist[a][b] {
        LeAntisymmetric(m.dist[a][b], s.dist[a][b]);
      }
    }
  }

  lemma RelaxDescends(s: State, k: nat, i: nat, j: nat)
    requires WellFormed(s) && k < Size(s) && i < Size(s) && j < Size(s)
    ensures Descends(s, Relax(s, k, i, j))
  {
    var r := Relax(s, k, i, j);
    RelaxEffect(s, k, i, j);
    if r != s {
      LessIsStrict(r.dist[i][j], s.dist[i][j]);
    }
  }

  lemma {:induction false} RowDescends(s: State, k: nat, i: nat, j: nat)
    requires WellFormed(s) && k < Size(s) && i < Size(s) && j <= Size(s)
    ensures Descends(s, RelaxRow(s, k, i, j))
    decreases j
  {
    if j > 0 {
      var m := RelaxRow(s, k, i, j - 1);
      RowDescends(s, k, i, j - 1);
      RelaxDescends(m, k, i, j - 1);
      DescendsTransitive(s, m, RelaxRow(s, k, i, j));
    }
  }

  lemma {:induction false} RoundDescends(s: State, k: nat, i: nat)
    requires WellFormed(s) && k < Size(s) && i <= Size(s)
    ensures Descends(s, RelaxRound(s, k, i))
    decreases i
  {
    if i > 0 {
      var m := RelaxRound(s, k, i - 1);
      RoundDescends(s, k, i - 1);
      RowDescends(m, k, i - 1, Size(s));
      DescendsTransitive(s, m, RelaxRound(s, k, i));
    }
  }

  lemma {:induction false} RoundsDescend(s: State, k: nat)
    requires WellFormed(s) && k <= Size(s)
    ensures Descends(s, Rounds(s, k))
    decreases k
  {
    if k > 0 {
      var m := Rounds(s, k - 1);
      RoundsDescend(s, k - 1);
      RoundDescends(m, k - 1, Size(s));
      DescendsTransitive(s, m, Rounds(s, k));
    } else {
      forall a, b | 0 <= a < Size(s) && 0 <= b < Size(s)
        ensures EntryDescends(s, s, a, b)
      {
        LessIsStrict(s.dist[a][b], s.dist[a][b]);
      }
    }
  }

  /** No returned distance exceeds the direct edge weight; and wherever it
      equals the direct weight, the next hop is still the destination's label. */
  lemma NeverIncreases(g: seq<seq<Weight>>)
    requires IsSquare(g)
    ensures forall a, b | 0 <= a < |g| && 0 <= b < |g| ::
              Le(FloydWarshall(g).dist[a][b], g[a][b]) &&
              (FloydWarshall(g).dist[a][b] == g[a][b] ==> FloydWarshall(g).next[a][b] == b + 1)
  {
    RoundsDescend(Init(g), |g|);
    forall a, b | 0 <= a < |g| && 0 <= b < |g|
      ensures Le(FloydWarshall(g).dist[a][b], g[a][b])
      ensures FloydWarshall(g).dist[a][b] == g[a][b] ==> FloydWarshall(g).next[a][b] == b + 1
    {
      assert EntryDescends(Init(g), FloydWarshall(g), a, b);
    }
  }

  // ---------------------------------------------------------------------
  // Every entry is realised by a walk whose first hop is the next-hop label.

  /** p is a walk from a to b of weight d whose second vertex has 1-based label hop. */
  ghost predicate Witness(g: seq<seq<Weight>>, p: seq<int>, a: int, b: int, d: Weight, hop: int)
  {
    IsSquare(g) && IsWalk(p, |g|, a, b) && PathWeight(g, p) == d && p[1] + 1 == hop
  }

  ghost predicate HasWitness(g: seq<seq<Weight>>, s: State, a: nat, b: nat)
    requires WellFormed(s) && a < Size(s) && b < Size(s)
  {
    exists p :: Witness(g, p, a, b, s.dist[a][b], s.next[a][b])
  }

  /** Every distance of s is the weight of a walk, and every next hop is that walk's first step. */
  ghost predicate Sound(g: seq<seq<Weight>>, s: State)
  {
    IsSquare(g) && WellFormed(s) && Size(s) == |g| &&
    forall a: nat, b: nat | a < |g| && b < |g| :: HasWitness(g, s, a, b)
  }

  lemma InitSound(g: seq<seq<Weight>>)
    requires IsSquare(g)
    ensures Sound(g, Init(g))
  {
    var s := Init(g);
    forall a: nat, b: nat | a < |g| && b < |g|
      ensures HasWitness(g, s, a, b)
    {
      assert Witness(g, [a, b], a, b, s.dist[a][b], s.next[a][b]);
    }
  }

  lemma RelaxSound(g: seq<seq<Weight>>, s: State, k: nat, i: nat, j: nat)
    requires Sound(g, s) && k < Size(s) && i < Size(s) && j < Size(s)
    ensures Sound(g, Relax(s, k, i, j))
  {
    var r := Relax(s, k, i, j);
    RelaxEffect(s, k, i, j);
    if r != s {
      assert HasWitness(g, s, i, k) && HasWitness(g, s, k, j);
      var p1 :| Witness(g, p1, i, k, s.dist[i][k], s.next[i][k]);
      var p2 :| Witness(g, p2, k, j, s.dist[k][j], s.next[k][j]);
      JoinWeight(g, p1, p2);
      assert Witness(g, Join(p1, p2), i, j, r.dist[i][j], r.next[i][j]);
      forall a: nat, b: nat | a < |g| && b < |g|
        ensures HasWitness(g, r, a, b)
      {
        if a != i || b != j {
          assert HasWitness(g, s, a, b);
          var p :| Witness(g, p, a, b, s.dist[a][b], s.next[a][b]);
          assert Witness(g, p, a, b, r.dist[a][b], r.next[a][b]);
        }
      }
    }
  }

  lemma {:induction false} RowSound(g: seq<seq<Weight>>, s: State, k: nat, i: nat, j: nat)
    requires Sound(g, s) && k < Size(s) && i < Size(s) && j <= Size(s)
    ensures Sound(g, RelaxRow(s, k, i, j))
    decreases j
  {
    if j > 0 {
      RowSound(g, s, k, i, j - 1);
      RelaxSound(g, RelaxRow(s, k, i, j - 1), k, i, j - 1);
    }
  }

  lemma {:induction false} RoundSound(g: seq<seq<Weight>>, s: State, k: nat, i: nat)
    requires Sound(g, s) && k < Size(s) && i <= Size(s)
    ensures Sound(g, RelaxRound(s, k, i))
    decreases i
  {
    if i > 0 {
      RoundSound(g, s, k, i - 1);
      RowSound(g, RelaxRound(s, k, i - 1), k, i - 1, Size(s));
    }
  }

  lemma {:induction false} RoundsSound(g: seq<seq<Weight>>, s: State, k: nat)
    requires Sound(g, s) && k <= Size(s)
    ensures Sound(g, Rounds(s, k))
    decreases k
  {
    if k > 0 {
      RoundsSound(g, s, k - 1);
      RoundSound(g, Rounds(s, k - 1), k - 1, Size(s));
    }
  }

  /** Each returned distance is the weight of an actual walk from i to j that
      starts with the edge to the vertex labelled by the returned next hop.
      This holds for every input, negative cycles included. */
  lemma ResultIsRealised(g: seq<seq<Weight>>)
    requires IsSquare(g)
    ensures Sound(g, FloydWarshall(g))
  {
    InitSound(g);
    RoundsSound(g, Init(g), |g|);
  }

  /** Every next-hop label is a 1-based vertex label, 1 .. n. */
  lemma LabelsInRange(g: seq<seq<Weight>>)
    requires IsSquare(g)
    ensures forall a, b | 0 <= a < |g| && 0 <= b < |g| :: 1 <= FloydWarshall(g).next[a][b] <= |g|
  {
    var r := FloydWarshall(g);
    ResultIsRealised(g);
    forall a, b | 0 <= a < |g| && 0 <= b < |g|
      ensures 1 <= r.next[a][b] <= |g|
    {
      assert HasWitness(g, r, a, b);
    }
  }

  /** A pair all of whose walks cross an edge of infinite weight keeps
      distance infinity. */
  lemma UnreachableStaysInfinite(g: seq<seq<Weight>>, a: nat, b: nat)
    requires IsSquare(g) && a < |g| && b < |g|
    requires forall p :: IsWalk(p, |g|, a, b) ==> PathWeight(g, p) == Inf
    ensures FloydWarshall(g).dist[a][b] == Inf
  {
    ResultIsRealised(g);
    assert HasWitness(g, FloydWarshall(g), a, b);
  }

  /** A single vertex: its next hop is label 1, and its distance is the
      self-loop weight, doubled once when that weight is negative (the one
      relaxation, through vertex 0, adds the loop to itself). */
  lemma SingleVertex(w: Weight)
    ensures FloydWarshall([[w]]).next == [[1]]
    ensures FloydWarshall([[w]]).dist == [[if Less(Add(w, w), w) then Add(w, w) else w]]
  {
    var g := [[w]];
    var s := Init(g);
    assert s.next[0][0] == 1;
    assert s.next[0] == [1];
    assert s.next == [[1]];
    assert Rounds(s, 0) == s && RelaxRound(s, 0, 0) == s && RelaxRow(s, 0, 0, 0) == s;
    assert FloydWarshall(g) == Rounds(s, 1) == RelaxRound(s, 0, 1) == RelaxRow(s, 0, 0, 1) == Relax(s, 0, 0, 0);
    var d := if Less(Add(w, w), w) then Add(w, w) else w;
    assert Relax(s, 0, 0, 0) == State([[d]], [[1]]) by {
      assert g[0][0 := d] == [d];
      assert g[0 := [d]] == [[d]];
      assert s.next[0][0 := 1] == [1];
      assert s.next[0 := [1]] == [[1]];
    }
  }

  // ---------------------------------------------------------------------
  // Without negative cycles, the distances are the shortest walk weights.

  /** The distances of s are lower bounds for the walks whose intermediate
      vertices are all below k. */
  ghost predicate LowerBound(g: seq<seq<Weight>>, s: State, k: int)
  {
    IsSquare(g) && WellFormed(s) && Size(s) == |g| &&
    forall a, b, p | 0 <= a < |g| && 0 <= b < |g| && IsWalk(p, |g|, a, b) && InteriorBelow(p, k) ::
      Le(s.dist[a][b], PathWeight(g, p))
  }

  /** s is at most s0 at every entry. */
  ghost predicate Below(s: State, s0: State)
  {
    WellFormed(s) && WellFormed(s0) && Size(s) == Size(s0) &&
    forall a, b | 0 <= a < Size(s) && 0 <= b < Size(s) :: Le(s.dist[a][b], s0.dist[a][b])
  }

  lemma DescendsBelow(s: State, t: State)
    requires Descends(s, t)
    ensures Below(t, s)
  {
    forall a, b | 0 <= a < Size(s) && 0 <= b < Size(s)
      ensures Le(t.dist[a][b], s.dist[a][b])
    {
      assert EntryDescends(s, t, a, b);
    }
  }

  /** After row i of round k, entry (i, b) is at most the route through k
      as it stood in s0, for every b already tried. */
  lemma {:induction false} RowRelaxes(s0: State, s: State, k: nat, i: nat, j: nat)
    requires Below(s, s0) && k < Size(s) && i < Size(s) && j <= Size(s)
    ensures forall b | 0 <= b < j ::
              Le(RelaxRow(s, k, i, j).dist[i][b], Add(s0.dist[i][k], s0.dist[k][b]))
    decreases j
  {
    if j > 0 {
      var m := RelaxRow(s, k, i, j - 1);
      var r := RelaxRow(s, k, i, j);
      RowRelaxes(s0, s, k, i, j - 1);
      RowDescends(s, k, i, j - 1);
      assert EntryDescends(s, m, i, k) && EntryDescends(s, m, k, j - 1);
      LeTransitive(m.dist[i][k], s.dist[i][k], s0.dist[i][k]);
      LeTransitive(m.dist[k][j - 1], s.dist[k][j - 1], s0.dist[k][j - 1]);
      AddMonotone(m.dist[i][k], s0.dist[i][k], m.dist[k][j - 1], s0.dist[k][j - 1]);
      var through := Add(m.dist[i][k], m.dist[k][j - 1]);
      RelaxEffect(m, k, i, j - 1);
      if r == m {
        assert Le(r.dist[i][j - 1], through);
      } else {
        LessIsStrict(through, through);
      }
      LeTransitive(r.dist[i][j - 1], through, Add(s0.dist[i][k], s0.dist[k][j - 1]));
    }
  }

  /** After round k, every entry is at most its value before the round and at
      most the route through k as it stood before the round. */
  lemma {:induction false} RoundRelaxes(s0: State, k: nat, i: nat)
    requires WellFormed(s0) && k < Size(s0) && i <= Size(s0)
    ensures forall a, b | 0 <= a < i && 0 <= b < Size(s0) ::
              Le(RelaxRound(s0, k, i).dist[a][b], Add(s0.dist[a][k], s0.dist[k][b]))
    decreases i
  {
    if i > 0 {
      var m := RelaxRound(s0, k, i - 1);
      var r := RelaxRound(s0, k, i);
      RoundRelaxes(s0, k, i - 1);
      RoundDescends(s0, k, i - 1);
      RowDescends(m, k, i - 1, Size(s0));
      DescendsBelow(s0, m);
      RowRelaxes(s0, m, k, i - 1, Size(s0));
      forall a, b | 0 <= a < i - 1 && 0 <= b < Size(s0)
        ensures Le(r.dist[a][b], Add(s0.dist[a][k], s0.dist[k][b]))
      {
        assert EntryDescends(m, r, a, b);
        LeTransitive(r.dist[a][b], m.dist[a][b], Add(s0.dist[a][k], s0.dist[k][b]));
      }
    }
  }

  /** A walk ending at k with intermediates below k + 1 weighs at least
      entry (a, k) of a state that bounds the walks with intermediates below k. */
  lemma {:induction false} IntoK(g: seq<seq<Weight>>, s: State, k: nat, a: nat, p: seq<int>)
    requires NoNegativeCycle(g) && LowerBound(g, s, k) && k < |g| && a < |g|
    requires IsWalk(p, |g|, a, k) && InteriorBelow(p, k + 1)
    ensures Le(s.dist[a][k], PathWeight(g, p))
    decreases |p|
  {
    if !InteriorBelow(p, k) {
      var f :| 0 < f < |p| - 1 && p[f] == k;
      SplitWeight(g, p, f);
      IntoK(g, s, k, a, p[..f + 1]);
      AddNonNegative(PathWeight(g, p[..f + 1]), PathWeight(g, p[f..]));
      LeTransitive(s.dist[a][k], PathWeight(g, p[..f + 1]), PathWeight(g, p));
    }
  }

  /** The mirror image of IntoK for a walk leaving k. */
  lemma {:induction false} OutOfK(g: seq<seq<Weight>>, s: State, k: nat, b: nat, p: seq<int>)
    requires NoNegativeCycle(g) && LowerBound(g, s, k) && k < |g| && b < |g|
    requires IsWalk(p, |g|, k, b) && InteriorBelow(p, k + 1)
    ensures Le(s.dist[k][b], PathWeight(g, p))
    decreases |p|
  {
    if !InteriorBelow(p, k) {
      var f :| 0 < f < |p| - 1 && p[f] == k;
      SplitWeight(g, p, f);
      OutOfK(g, s, k, b, p[f..]);
      AddNonNegative(PathWeight(g, p[f..]), PathWeight(g, p[..f + 1]));
      LeTransitive(s.dist[k][b], PathWeight(g, p[f..]), PathWeight(g, p));
    }
  }

  /** Before any round, the distances bound the single-edge walks. */
  lemma InitLowerBound(g: seq<seq<Weight>>)
    requires IsSquare(g)
    ensures LowerBound(g, Init(g), 0)
  {
    var n := |g|;
    forall a, b, p | 0 <= a < n && 0 <= b < n && IsWalk(p, n, a, b) && InteriorBelow(p, 0)
      ensures Le(Init(g).dist[a][b], PathWeight(g, p))
    {
      assert 0 <= p[1];
      assert |p| == 2;
      LessIsStrict(g[a][b], g[a][b]);
    }
  }

  /** Round k extends the bound from intermediates below k to those below k + 1. */
  lemma RoundLowerBound(g: seq<seq<Weight>>, s: State, k: nat)
    requires NoNegativeCycle(g) && LowerBound(g, s, k) && k < |g|
    ensures LowerBound(g, RelaxRound(s, k, |g|), k + 1)
  {
    var n := |g|;
    var t := RelaxRound(s, k, n);
    RoundDescends(s, k, n);
    RoundRelaxes(s, k, n);
    forall a, b, p | 0 <= a < n && 0 <= b < n && IsWalk(p, n, a, b) && InteriorBelow(p, k + 1)
      ensures Le(t.dist[a][b], PathWeight(g, p))
    {
      assert EntryDescends(s, t, a, b);
      if InteriorBelow(p, k) {
        LeTransitive(t.dist[a][b], s.dist[a][b], PathWeight(g, p));
      } else {
        var f :| 0 < f < |p| - 1 && p[f] == k;
        SplitWeight(g, p, f);
        IntoK(g, s, k, a, p[..f + 1]);
        OutOfK(g, s, k, b, p[f..]);
        AddMonotone(s.dist[a][k], PathWeight(g, p[..f + 1]), s.dist[k][b], PathWeight(g, p[f..]));
        LeTransitive(t.dist[a][b], Add(s.dist[a][k], s.dist[k][b]), PathWeight(g, p));
      }
    }
  }

  /** After k rounds, every distance bounds the walks whose intermediate
      vertices are below k. */
  lemma {:induction false} RoundsLowerBound(g: seq<seq<Weight>>, k: nat)
    requires NoNegativeCycle(g) && k <= |g|
    ensures LowerBound(g, Rounds(Init(g), k), k)
    decreases k
  {
    if k == 0 {
      InitLowerBound(g);
    } else {
      RoundsLowerBound(g, k - 1);
      RoundLowerBound(g, Rounds(Init(g), k - 1), k - 1);
    }
  }

  /** With no negative cycle, the returned distance from a to b is at most the
      weight of any walk p from a to b; with ResultIsRealised it is the minimum. */
  lemma ShortestDistance(g: seq<seq<Weight>>, a: nat, b: nat, p: seq<int>)
    requires NoNegativeCycle(g) && a < |g| && b < |g| && IsWalk(p, |g|, a, b)
    ensures Le(FloydWarshall(g).dist[a][b], PathWeight(g, p))
  {
    RoundsLowerBound(g, |g|);
    assert InteriorBelow(p, |g|);
  }

  /** With no negative cycle, the next hop of i -> j starts a shortest walk:
      some walk from i to j of the least weight goes first to vertex next - 1. */
  lemma NextHopStartsShortestWalk(g: seq<seq<Weight>>, a: nat, b: nat)
    requires NoNegativeCycle(g) && a < |g| && b < |g|
    ensures exists p :: Witness(g, p, a, b, FloydWarshall(g).dist[a][b], FloydWarshall(g).next[a][b]) &&
                        forall q :: IsWalk(q, |g|, a, b) ==> Le(PathWeight(g, p), PathWeight(g, q))
  {
    var r := FloydWarshall(g);
    ResultIsRealised(g);
    assert HasWitness(g, r, a, b);
    var p :| Witness(g, p, a, b, r.dist[a][b], r.next[a][b]);
    forall q | IsWalk(q, |g|, a, b)
      ensures Le(PathWeight(g, p), PathWeight(g, q))
    {
      ShortestDistance(g, a, b, q);
    }
  }

  /** With no negative cycle, no detour through a third vertex is shorter. */
  lemma TriangleInequality(g: seq<seq<Weight>>, a: nat, c: nat, b: nat)
    requires NoNegativeCycle(g) && a < |g| && c < |g| && b < |g|
    ensures Le(FloydWarshall(g).dist[a][b], Add(FloydWarshall(g).dist[a][c], FloydWarshall(g).dist[c][b]))
  {
    var r := FloydWarshall(g);
    ResultIsRealised(g);
    assert HasWitness(g, r, a, c) && HasWitness(g, r, c, b);
    var p1 :| Witness(g, p1, a, c, r.dist[a][c], r.next[a][c]);
    var p2 :| Witness(g, p2, c, b, r.dist[c][b], r.next[c][b]);
    JoinWeight(g, p1, p2);
    ShortestDistance(g, a, b, Join(p1, p2));
  }
}
