# Floyd–Warshall all-pairs shortest paths (`johnsonsAlgorithm`)

This project models the computing core of a small web page that reads a
directed graph as an n×n matrix of edge weights and shows the shortest
distance and the next hop for every pair of vertices. The core is
`johnsonsAlgorithm` in `main.js`. Despite its name it is the Floyd–Warshall
dynamic program. It has no Johnson reweighting phase and no negative-cycle
check. Two small conversions sit beside it. An input cell holding the integer
9999 means "no edge", which becomes `Number.POSITIVE_INFINITY`. On output,
infinity is shown as the infinity sign.

The project has five modules:

- `Weights` (`weights.dfy`): a weight is `Fin(int)` or `Inf`. `Add` is
  JavaScript `+` with infinity absorbing. `Less` is JavaScript `<`, so
  infinity is never below anything. The module proves the order facts the
  proofs use.
- `Boundary` (`boundary.dfy`): the input sentinel mapping `ToWeight` and the
  output rendering `FormatMatrixValue`.
- `Walks` (`walks.dfy`): walks in the graph and their weights, and the
  "no negative cycle" condition. These define what a shortest distance is,
  with no reference to the algorithm.
- `ShortestPaths` (`shortest_paths.dfy`): a reference model of the triple loop
  on values. It has one function per loop level (`Relax`, `RelaxRow`,
  `RelaxRound`, `Rounds`) and `FloydWarshall(g)` for the whole result. It runs
  the steps in the same order the code does and reads each entry as it stands
  at that moment. So the in-place updates of row k and column k during round
  k are reproduced exactly, negative cycles included. The lemmas about this
  model state what the two result matrices mean.
- `Johnson` (`johnson.dfy`): `JohnsonsAlgorithm`, which works on `array2`
  buffers. It allocates both matrices, runs the initialisation loop and then
  the k, i, j loops with their updates in place. It is proved to return
  exactly `FloydWarshall` of the input, entry by entry. The loop levels are
  separate methods, so that each proof stays small.

Three details of the code the model keeps:

- The next-hop ("directed graph") matrix holds 1-based labels. It is seeded
  with `j + 1` (main.js:73), not `j`. So a single vertex gets next hop 1, not 0.
- The code does no input validation and raises no error for a non-square or
  empty matrix. The model requires a square matrix, which is what the code
  indexes. The empty graph (n = 0) is allowed and gives empty matrices.
- A distance is the least weight over walks of at least one edge. The code
  never assumes that `graph[i][i]` is 0. So the distance from i to i is the
  lightest closed walk through i, and a negative self-loop is relaxed through
  itself (`SingleVertex`).

## Model

| member | source | states |
|---|---|---|
| `Boundary.ToWeight` | main.js:14 | the cell value 9999 becomes infinity, and exactly that value does; every other integer becomes the finite weight it is |
| `Boundary.EnterableWeights` | main.js:14 | a weight can be entered exactly when it is not the finite weight 9999: that edge length cannot be expressed |
| `Boundary.FormatMatrixValue` | main.js:57-59 | the infinity sign is shown exactly for infinity; every finite value is shown unchanged |
| `Boundary.FormatIsInjective` | main.js:57-59 | two entries shown alike are equal: the rendering loses nothing |
| `Boundary.ShownAsEntered` | main.js:57-59 | an entered integer is shown as that integer, with 9999 shown as the infinity sign |
| `Weights.InfIsTop` | main.js:81-82 | infinity is never `<` anything and every weight is at most infinity; the only weight at least infinity is infinity itself |
| `Weights.LessIsStrict` | main.js:81-82 | `<` holds exactly when the weights differ and the first is at most the second |
| `Weights.AddAssociative` | main.js:81 | `+` with infinity absorbing is associative, so a walk's weight does not depend on how its edges are grouped |
| `Weights.AddMonotone` | main.js:81 | `+` never decreases when either argument increases, infinity included |
| `Weights.InfSumNeverLess` | main.js:81 | `INFINITY + x < y` and `x + INFINITY < y` are false for all x and y, so a route through an infinite entry never triggers an update |
| `ShortestPaths.Init` | main.js:70-75 | after the initialisation loop the distance matrix equals the weights and every next hop (i, j) is j + 1 |
| `ShortestPaths.RelaxEffect` | main.js:81-84 | one step changes entry (i, j) exactly when the route through k is strictly shorter; it then takes that route's length, which is strictly smaller, and the next hop of (i, k); an equally long route changes nothing; no other entry changes |
| `ShortestPaths.Relax` | main.js:81-84 | one step keeps both matrices n×n; what it changes is stated by `RelaxEffect` |
| `ShortestPaths.RelaxRow` | main.js:80-85 | the j loop of row i keeps both matrices n×n |
| `ShortestPaths.RowFrame` | main.js:80-85 | the j loop of row i changes only row i, and only the columns it has reached |
| `ShortestPaths.RelaxRound` | main.js:79-86 | the i loop of round k keeps both matrices n×n |
| `ShortestPaths.RoundFrame` | main.js:79-86 | the i loop of round k leaves the rows it has not yet reached unchanged |
| `ShortestPaths.Rounds` | main.js:78-87 | the k loop keeps both matrices n×n; what its result means is stated by the lemmas below about `FloydWarshall` |
| `ShortestPaths.FloydWarshall` | main.js:64-90 | both result matrices are n×n, with n the number of rows of the input |
| `ShortestPaths.NeverIncreases` | main.js:81-83 | no returned distance exceeds the direct weight; where it equals the direct weight, the next hop is still j + 1, because a next hop changes only when its distance strictly drops |
| `ShortestPaths.LabelsInRange` | main.js:73 | every returned next hop is a 1-based vertex label in 1..n |
| `ShortestPaths.ResultIsRealised` | main.js:78-87 | for every input (negative cycles included), each returned distance is the weight of an actual walk from i to j whose first step goes to the vertex labelled by the returned next hop |
| `ShortestPaths.UnreachableStaysInfinite` | main.js:81 | a pair whose every walk has infinite weight keeps distance infinity |
| `ShortestPaths.ShortestDistance` | main.js:78-87 | with no negative cycle, the returned distance from i to j is at most the weight of any walk from i to j; with `ResultIsRealised`, it is the minimum |
| `ShortestPaths.NextHopStartsShortestWalk` | main.js:83 | with no negative cycle, some walk from i to j of least weight starts with the edge to the vertex labelled by the returned next hop |
| `ShortestPaths.TriangleInequality` | main.js:78-87 | with no negative cycle, `dist[i][j] <= dist[i][k] + dist[k][j]` for all i, k, j (trivially when a term is infinite) |
| `ShortestPaths.SingleVertex` | main.js:64-90 | for one vertex the next hop is 1, and the distance is the self-loop weight, doubled once when it is negative |
| `Johnson.JohnsonsAlgorithm` | main.js:64-90 | returns two new n×n arrays holding exactly the reference model's distance and next-hop matrices; the input matrix is not modified |
| `Johnson.InitialiseFrom` | main.js:70-75 | the nested initialisation loop leaves the buffers equal to `Init` of the input |
| `Johnson.AllRoundsInPlace` | main.js:78-87 | the k loop leaves the buffers equal to all n rounds of the reference model |
| `Johnson.RoundInPlace` | main.js:79-86 | one k iteration leaves the buffers equal to the reference round k |
| `Johnson.RowInPlace` | main.js:80-85 | one i iteration leaves the buffers equal to the reference row sweep |
| `Johnson.RelaxInPlace` | main.js:81-84 | the loop body updates the buffers exactly as `Relax` does |

`Weights.Add` and `Weights.Less` (JavaScript `+` and `<` at main.js:81-82) are plain definitions without contracts; the `Weights` rows above state their properties.

## Left out

- `runJohnsonAlgorithm` (main.js:3-32) is not modelled. It reads the input from the DOM with `parseInt`, which can also give NaN for bad input, and it sends the results to the display. Only its sentinel expression at main.js:14 is modelled, as `ToWeight`.
- `createMatrixTable` (main.js:34-55) builds DOM tables, which is presentation. Only the per-cell `formatMatrixValue` is modelled. The next-hop labels it also renders are plain integers and are shown unchanged.
- `drawGraph` (main.js:96-189) is not modelled. It is SVG layout with floating-point trigonometry.
- JavaScript numbers are IEEE doubles. The model uses unbounded integers plus `Inf`, and so assumes that every input weight and every intermediate sum stays below 2^53 in magnitude. Beyond that the code rounds: `parseInt` of a 20-digit number is already inexact, a digit string of more than about 309 digits gives an infinity (which the code then treats like "no edge", while `ToWeight` gives a finite weight), `-Infinity + Infinity` at main.js:81 is NaN, and with a negative cycle the relaxations keep doubling magnitudes (`SingleVertex`) until they pass 2^53. None of `-Infinity`, NaN or rounding is modelled, and the exact walk weights of `ResultIsRealised` are stated for the unbounded-integer model.
- The input `graph` is an array of row arrays in the code. The model takes it as an `array2`, so a ragged input is not modelled.
- The code fills the next-hop buffer with `null` before the initialisation loop overwrites every entry. The model allocates it with 0 instead.
- Negative-cycle detection and Johnson reweighting are not modelled, because the code does neither. The optimality lemmas are stated under `NoNegativeCycle`. `ResultIsRealised` and `NeverIncreases` hold for every input.
- Path reconstruction by walking the next-hop chain is not modelled, because the code never does it. Only the first hop is tied to a shortest walk (`NextHopStartsShortestWalk`). The hops after it are not related to the next-hop entries of later vertices.
