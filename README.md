# All-pairs shortest paths: Bellman-Ford and Floyd-Warshall, modelled in Dafny

The program reads a directed graph and computes the shortest distance between every pair of vertices. The graph is a vertex count `n` plus `(source, sink, weight)` edge triples with 1-based vertex numbers. The solvers work on an n×n weight matrix in which a missing edge is +∞.

It has two solvers:

- **Bellman-Ford** runs the single-source algorithm from every vertex: n − 1 in-place relaxation rounds over every cell of the matrix, then one more pass. If that pass can still relax an edge, the answer is `False`.
- **Floyd-Warshall** starts from a matrix with 0 on the diagonal and runs n rounds of `min(d[i][j], d[i][k-1] + d[k-1][j])`. It answers `False` when a diagonal entry ends negative.

A driver runs one solver or both. When it runs both, it keeps Bellman-Ford's result and warns if the comparison function finds the two results different.

Dafny modules, following the program's parts:

| file | module | what it holds |
|---|---|---|
| `extended.dfy` | `Extended` | integers with +∞ (`Fin(v)` / `Inf`): saturating addition, order, the built-in `min` |
| `walks.dfy` | `Walks` | walks, their weights, simple paths and cycles, "no negative cycle", cycle removal |
| `outcomes.dfy` | `Outcomes` | `Option`, `Result`, the errors, and a solver's `Outcome` (`NegativeCycle` for `False`, or `Distances(rows)`) |
| `weight_matrix.dfy` | `WeightMatrix` | building the weight matrix from the triples |
| `bellman_ford.dfy` | `BellmanFordSolver` | the relaxation loops on an array, the functions that mirror them, and the correctness proof |
| `floyd_warshall.dfy` | `FloydWarshallSolver` | the k/i/j loops on two-dimensional arrays, including the point where the two matrices become one; the functions that mirror them; and the correctness proof |
| `comparator.dfy` | `Comparison` | the comparison of two results, as written and corrected |
| `agreement.dfy` | `Agreement` | how the two solvers' answers relate |
| `driver.dfy` | `Driver` | one run: read, select, solve, compare |
| `scenarios.dfy` | `Scenarios` | small graphs worked through the theorems |

Each imperative routine is a Dafny `method` with loops and invariants. Its `ensures` ties the result to a function that mirrors the update order exactly:

- Bellman-Ford's rows are updated in place (Gauss-Seidel order), so a relaxation already sees values lowered earlier in the same round.
- Floyd-Warshall's first round reads `d` and writes the separate matrix `pathPairs`. After `d = pathPairs` (line 83) the two names denote one matrix, so every later round updates it in place. The `Round` method states both aliasing cases.

The correctness lemmas are about those functions.

Main results:

- **Bellman-Ford.** It answers `False` exactly when the graph has a negative cycle, self-loops included. Otherwise each row holds true shortest distances: every entry is +∞ or the weight of a walk, and no walk is lighter.
- **Floyd-Warshall.** It answers `False` exactly when the graph *with its self-loops removed* has a negative cycle, because the starting matrix never reads a self-loop. Otherwise it returns the shortest distances of the graph with its self-loops removed. When the graph has no negative cycle at all, these are its own shortest distances, with a zero diagonal and the triangle inequality.
- **Agreement.** Without a negative cycle both solvers return the identical matrix, so the driver never warns. No assumption about self-loops is needed.
- **Disagreement.** Floyd-Warshall fails only if Bellman-Ford fails. Bellman-Ford alone fails exactly when every negative cycle needs a self-loop. In that case the comparison, as written, raises a `TypeError` (see Findings).

Points where the code behaves differently from what a reader might expect. The model follows the code in the first three. For the line-127 message and for the driver's use of the comparison, see "## Left out".

- Self-loops: Floyd-Warshall never reads a diagonal weight (line 70), but Bellman-Ford relaxes it like any other cell (lines 32-36).
- Comparison: when exactly one result is `False` and the other a non-empty matrix, line 138 applies `len()` to it and raises `TypeError`.
- Vertex 0: it passes the range test at line 126, and the index −1 at line 130 wraps to the last row or column.
- The out-of-range message: line 127 concatenates the vertex list to a string, which raises `TypeError` before `quit(1)` is reached.

The reference functions that the solver contracts are stated against are `BellmanFordSolver.SingleSource` (the run from one source, lines 23-44), `BellmanFordSolver.AllSources` (one run per source, stopping at the first failure, lines 46-59) and `FloydWarshallSolver.FloydWarshallResult` (the final layer after the diagonal check, lines 61-98). They are defined in terms of the in-order functions above and have no contracts of their own. What they mean is stated by the lemmas in the table below.

## Model

| member | source | states |
|---|---|---|
| `Extended.Add` | allPairsShortestPath.py:81 | a sum is finite exactly when both operands are, and then it is the integer sum (so +∞ absorbs any weight, as the float infinity does) |
| `Extended.Min` | allPairsShortestPath.py:82 | the result is no larger than either argument and is one of them (the second only when strictly smaller) |
| `WeightMatrix.BuildWeights` | allPairsShortestPath.py:113-130 | fails exactly when some triple is rejected (a vertex above n, or any triple when n = 0), with the error of the first rejected one; otherwise returns an n×n matrix whose every cell is the last write to it, which is `Graph(n, triples)` |
| `WeightMatrix.Slot` | allPairsShortestPath.py:126-130 | a vertex number that passes the range test lands in the matrix: number x in 1..n is index x − 1, and number 0 is index n − 1, as Python's index −1 |
| `WeightMatrix.Graph` | allPairsShortestPath.py:113-130 | the n×n matrix whose every cell is the last write to it; `BuildWeights` returns exactly this matrix when no triple is rejected |
| `WeightMatrix.LastWriteWins` | allPairsShortestPath.py:130 | a cell holds the weight of the last triple naming it |
| `WeightMatrix.UnwrittenIsInf` | allPairsShortestPath.py:114-119 | a cell no triple names stays +∞ |
| `BellmanFordSolver.InitialRow` | allPairsShortestPath.py:24-28 | the starting row is 0 at the source and +∞ everywhere else |
| `BellmanFordSolver.RelaxEdge` | allPairsShortestPath.py:34-36 | a relaxation changes only d[j], never raises it, leaves it no larger than d[i] + w(i, j), and changes nothing out of a +∞ entry |
| `BellmanFordSolver.PassBound` | allPairsShortestPath.py:32-36 | after a round no entry grew and every entry is at most the round's starting d[u] + w(u, v) for every edge |
| `BellmanFordSolver.RoundsDecrease` | allPairsShortestPath.py:31-36 | entries only ever decrease over the rounds |
| `BellmanFordSolver.RoundsWitnessed` | allPairsShortestPath.py:31-36 | after any number of rounds each entry is +∞ or the weight of a walk from the source |
| `BellmanFordSolver.RoundsWalkBounded` | allPairsShortestPath.py:31-36 | after k rounds no entry exceeds the weight of any walk from the source with at most k edges |
| `BellmanFordSolver.RelaxPass` | allPairsShortestPath.py:32-36 | one round of the array loops leaves the row exactly as the mirrored in-order round `Pass` does |
| `BellmanFordSolver.FindRelaxable` | allPairsShortestPath.py:39-43 | the extra pass reports an edge exactly when some finite edge (i, j) has d[i] + w(i, j) < d[j] |
| `BellmanFordSolver.ShortestPath` | allPairsShortestPath.py:23-44 | the array loops return exactly the mirrored row, or `False` when the extra pass finds a relaxable edge; on success the row has n entries and no finite edge can still be relaxed |
| `BellmanFordSolver.ShortestDistances` | allPairsShortestPath.py:23-44 | without a negative cycle every entry is +∞ or a walk weight and no walk from the source is lighter |
| `BellmanFordSolver.NothingLeftToRelax` | allPairsShortestPath.py:39-43 | without a negative cycle the extra pass finds nothing to relax |
| `BellmanFordSolver.StableAlongWalk` | allPairsShortestPath.py:39-44 | when nothing can be relaxed, the distance grows along any walk by at most the walk's weight |
| `BellmanFordSolver.NegativeCycleDetected` | allPairsShortestPath.py:39-43 | the run from the first vertex of a negative closed walk, self-loops included, fails the extra pass |
| `BellmanFordSolver.NegativeCycleIffSomeSourceFails` | allPairsShortestPath.py:46-59 | some source fails exactly when the graph has a negative cycle |
| `BellmanFordSolver.BellmanFord` | allPairsShortestPath.py:46-59 | returns `False` exactly when some source's run fails, which is exactly when there is a negative cycle; otherwise n rows, row s being the run from s |
| `FloydWarshallSolver.StartingMatrix` | allPairsShortestPath.py:65-74 | a fresh array holding 0 on the diagonal and the weight matrix elsewhere |
| `FloydWarshallSolver.IgnoresSelfLoops` | allPairsShortestPath.py:67-74 | graphs that differ only in their self-loops get the same answer |
| `FloydWarshallSolver.UpdateCell` | allPairsShortestPath.py:80-82 | an update changes one cell, never raises it, and leaves it no larger than the path through k − 1 |
| `FloydWarshallSolver.Round` | allPairsShortestPath.py:78-83 | with two arrays the round writes the separate round of the other's contents and leaves it untouched; with one array it performs the in-place round |
| `FloydWarshallSolver.RoundInPlace` | allPairsShortestPath.py:78-82 | when `d` and `pathPairs` are one array, the i/j loops leave it exactly as the in-order in-place round `UpdatePass` |
| `FloydWarshallSolver.RoundSeparate` | allPairsShortestPath.py:78-82 | when the arrays differ (the first round), every cell of `pathPairs` becomes min(d[i][j], d[i][k-1] + d[k-1][j]) of the unchanged `d` |
| `FloydWarshallSolver.RoundImproves` | allPairsShortestPath.py:77-83 | either kind of round never raises an entry and bounds it by the path through the round's vertex |
| `FloydWarshallSolver.LayersAttained` | allPairsShortestPath.py:77-83 | after any number of rounds each entry is +∞ or the weight of a walk |
| `FloydWarshallSolver.LayersPathBounded` | allPairsShortestPath.py:77-83 | after k rounds no entry exceeds the weight of a simple path or simple cycle (not a self-loop) whose inner vertices are below k |
| `FloydWarshallSolver.CheckDiagonal` | allPairsShortestPath.py:90-98 | returns `False` exactly when a diagonal entry is negative, and the matrix otherwise |
| `FloydWarshallSolver.FloydWarshall` | allPairsShortestPath.py:61-98 | the array loops, aliasing included, return exactly the mirrored result; `False` exactly when the graph without self-loops has a negative cycle; otherwise an n×n matrix |
| `FloydWarshallSolver.ShortestDistances` | allPairsShortestPath.py:61-98 | without a negative cycle every entry is +∞ or a walk weight and no walk between the same vertices is lighter |
| `FloydWarshallSolver.NoNegativeDiagonal` | allPairsShortestPath.py:90-98 | without a negative cycle no diagonal entry is negative and the final matrix is returned |
| `FloydWarshallSolver.NegativeDiagonalIsNegativeCycle` | allPairsShortestPath.py:90-92 | a negative diagonal entry comes from a negative cycle |
| `FloydWarshallSolver.DetectsNegativeCycle` | allPairsShortestPath.py:90-92 | in a graph without self-loops every negative cycle leaves a negative diagonal entry |
| `FloydWarshallSolver.DistancesWithoutSelfLoops` | allPairsShortestPath.py:61-98 | when the graph without its self-loops has no negative cycle, the answer is that graph's final distance matrix (its shortest distances, not necessarily those of the graph itself) |
| `FloydWarshallSolver.NegativeCycleIffWithoutSelfLoops` | allPairsShortestPath.py:61-98 | the answer is `False` exactly when the graph without its self-loops has a negative cycle |
| `FloydWarshallSolver.DiagonalZero` | allPairsShortestPath.py:61-98 | without a negative cycle every diagonal entry is 0 |
| `FloydWarshallSolver.TriangleInequality` | allPairsShortestPath.py:61-98 | without a negative cycle D[i][j] ≤ D[i][k] + D[k][j] for all i, k, j |
| `Walks.SimpleNegativeCycle` | allPairsShortestPath.py:90-92 | every negative cycle contains a simple negative cycle |
| `Walks.Shorten` | allPairsShortestPath.py:31 | without a negative cycle every walk shortens to a simple path of at most n vertices with the same end points and no larger weight, which is why n − 1 rounds suffice |
| `Comparison.MatrixEqualityAsWritten` | allPairsShortestPath.py:134-146 | raises `TypeError` exactly when one argument is `False` and the other a non-empty matrix; otherwise answers whether both are falsy or both hold the same rows |
| `Comparison.MatrixEquality` | allPairsShortestPath.py:134-146 | answers whether both results are falsy or hold the same rows, and agrees with the function as written wherever that one does not raise |
| `Comparison.AsWrittenSymmetric` | allPairsShortestPath.py:134-146 | the comparison raises in one order exactly when it raises in the other, and otherwise gives the same answer |
| `Agreement.SolversAgree` | allPairsShortestPath.py:187-192 | without a negative cycle both solvers succeed with the identical matrix, and the comparison finds them equal |
| `Agreement.HowTheSolversRelate` | allPairsShortestPath.py:187-192 | Floyd-Warshall fails only if Bellman-Ford fails; a Bellman-Ford success equals the Floyd-Warshall result; Bellman-Ford alone fails exactly when every negative cycle needs a self-loop |
| `Agreement.WarningUnreachableAsWritten` | allPairsShortestPath.py:134-146 | for every graph, the comparison as written never answers "unequal" on the two solvers' results: they agree, or it raises first, so the warning at line 192 cannot be printed |
| `Agreement.NegativeSelfLoopSplitsSolvers` | allPairsShortestPath.py:138 | a negative self-loop, with no other negative cycle, makes Bellman-Ford return `False` and Floyd-Warshall an n×n matrix; the comparison as written then raises `TypeError` |
| `Agreement.SelfLoopCounterexample` | allPairsShortestPath.py:138 | the one-vertex graph with a self-loop of weight −1: `False` against `[[0]]`, and the comparison as written raises |
| `Driver.Run` | allPairsShortestPath.py:153-192 | fails exactly when reading fails; "b"/"B" give Bellman-Ford's result, "f"/"F" Floyd-Warshall's, "a" Bellman-Ford's with a warning exactly when the results disagree, any other letter the empty result; without a negative cycle there is no warning and any selected solver gives the shortest-distance matrix |
| `Scenarios.SingleVertex` | allPairsShortestPath.py:23-98 | one vertex and no edge: both solvers return [[0]] |
| `Scenarios.DisconnectedPair` | allPairsShortestPath.py:23-98 | two vertices and no edge: both return 0 on the diagonal and +∞ between them |
| `Scenarios.ThroughMiddleVertex` | allPairsShortestPath.py:23-98 | edges 1→2 (1), 2→3 (2) and 1→3 (5): both solvers agree, and the distance from 1 to 3 is 3, through vertex 2 rather than along the direct edge |
| `Scenarios.NegativeTwoCycle` | allPairsShortestPath.py:23-98 | two edges of weight −1 forming a cycle: both solvers return `False` |

## Left out

- Command-line parsing (`argparse`) and the `verbose` and `profile` flags: configuration only. The algorithm letter is a parameter of `Driver.Run`.
- Profiling with `cProfile`: instrumentation, not logic.
- Opening and reading the file, and the regular expressions for the header and edge lines: text input. The model takes the vertex count and the triples of the matching edge lines. The edge count in the header is never used by the program.
- The message at line 127: it concatenates the vertex list to a string, which raises `TypeError` before `quit(1)` runs. Either way the run stops before any solver. The model reports `VertexOutOfRange`.
- Writing the output file: side effect only. For a falsy result the file gets the text `False`; otherwise one line of values per row.
- `print`: side effect only. The "running both" line is not modelled, and the mismatch warning is the `warned` flag.
- Weights are kept as digit strings and converted with `int` when used (lines 35, 36, 42, 72). The model stores the integers. Python integers are unbounded, like Dafny's `int`, but a sum with the float `inf` converts the integer to float (see `Extended.Add` below).
- The float infinity is the datatype value `Inf`.
- Extended.Add: adding an integer to `inf` (lines 35, 42, 81) converts the integer to float, and Python raises `OverflowError` when the integer is too large for a float (magnitude from just below 2^1024 upwards). The model returns +∞ there. For example, two vertices and the one triple (2, 1, 2^1024) make both solvers raise in the program, while in the model both return distances.
- The global `vertices` and `edges` lists and the unused `G` parameter: the matrix is passed explicitly.
- The truthiness test on a weight string at line 71: a matched edge line always has a non-empty weight, so the test is always true and the model has no branch for it.
- The truthiness test on a distance row at line 50: with at least one vertex a row is never empty, so only `False` stops the loop.
- Comparison.MatrixEqualityAsWritten: requires each argument to be `False` or a square matrix. The solvers return nothing else. A ragged list could make the loop at lines 142-145 raise `IndexError` or skip cells, and that is not modelled.
- Comparison.MatrixEquality: the same requirement and the same reason.
- Driver.Run: uses the corrected comparison. On the inputs where the comparison as written raises, the program itself stops with a `TypeError` after both solvers have run (see Findings). `Agreement.WarningUnreachableAsWritten` states what that means for the program as written: the mismatch warning can never be printed.

## Findings

| source | as written | input that shows it | evidently intended | confidence | as-written member | corrected member |
|---|---|---|---|---|---|---|
| allPairsShortestPath.py:138 | when exactly one result is `False` and the other a non-empty matrix, `len()` is applied to `False` and raises `TypeError` | one vertex with the edge line `1 1 -1`, algorithm `a`: Bellman-Ford returns `False`, Floyd-Warshall ignores the self-loop and returns `[[0]]` | report the mismatch (comparison answers unequal) and print the warning | not executed | `Comparison.MatrixEqualityAsWritten` (exhibited by `Agreement.SelfLoopCounterexample`) | `Comparison.MatrixEquality` |
