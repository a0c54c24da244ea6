/** Small graphs, from the triples a reader would get, worked through both solvers by
    way of the general theorems. */
module Scenarios {
  import opened Extended
  import opened Outcomes
  import opened Walks
  import opened WeightMatrix
  import opened Agreement
  import BF = BellmanFordSolver
  import FW = FloydWarshallSolver

  /** One vertex and no edge: both solvers return [[0]]. */
  lemma SingleVertex()
    ensures BF.AllSources(Graph(1, [])) == Distances([[Fin(0)]])
    ensures FW.FloydWarshallResult(Graph(1, [])) == Distances([[Fin(0)]])
  {
    var G := Graph(1, []);
    NonNegativeEdges(G);
    SolversAgree(G);
    FW.NoNegativeDiagonal(G);
    FW.DiagonalZero(G);
    var R := FW.FinalDistances(G);
    assert R[0] == [Fin(0)];
  }

  /** With no edge at all, no vertex reaches another. */
  lemma NoEdgesUnreachable(W: Matrix, i: nat, j: nat)
    requires IsSquare(W) && i < |W| && j < |W| && i != j
    requires forall a, b :: 0 <= a < |W| && 0 <= b < |W| ==> W[a][b].Inf?
    ensures FW.FinalDistances(W)[i][j] == Inf
  {
    var R := FW.FinalDistances(W);
    FW.FinalAttained(W);
    assert Attained(W, i, j, R[i][j]);
    if R[i][j].Fin? {
      var p: seq<nat> :| WalkFromTo(W, p, i, j) && Weight(W, p) == R[i][j];
      NoEdgesNoWeight(W, p);
    }
  }

  /** Two vertices and no edge: each is unreachable from the other, in both solvers. */
  lemma DisconnectedPair()
    ensures var G := Graph(2, []);
            BF.AllSources(G) == FW.FloydWarshallResult(G) &&
            FW.FloydWarshallResult(G) == Distances([[Fin(0), Inf], [Inf, Fin(0)]])
  {
    var G := Graph(2, []);
    NonNegativeEdges(G);
    SolversAgree(G);
    FW.NoNegativeDiagonal(G);
    FW.DiagonalZero(G);
    var R := FW.FinalDistances(G);
    NoEdgesUnreachable(G, 0, 1);
    NoEdgesUnreachable(G, 1, 0);
    assert R[0] == [Fin(0), Inf] && R[1] == [Inf, Fin(0)];
  }

  /** Two vertices joined both ways by edges of weight -1: a cycle of weight -2, which
      both solvers report. */
  lemma NegativeTwoCycle()
    ensures var G := Graph(2, [Triple(1, 2, -1), Triple(2, 1, -1)]);
            BF.AllSources(G) == NegativeCycle && FW.FloydWarshallResult(G) == NegativeCycle
  {
    var G := Graph(2, [Triple(1, 2, -1), Triple(2, 1, -1)]);
    assert G[0][1] == Fin(-1) && G[1][0] == Fin(-1);
    var V := FW.WithoutSelfLoops(G);
    var c := [0, 1, 0];
    assert c[..2] == [0, 1] && c[..2][..1] == [0];
    assert IsNegativeCycle(V, c);
    FW.NegativeCycleIffWithoutSelfLoops(G);
    HowTheSolversRelate(G);
  }

  /** With no negative weight among the triples, no cell of the matrix is negative. */
  lemma {:induction false} NonNegativeTriples(triples: seq<Triple>, n: nat, i: nat, j: nat)
    requires forall u :: 0 <= u < |triples| ==> triples[u].weight >= 0
    ensures Le(Fin(0), LastWrite(triples, n, i, j))
    decreases |triples|
  {
    if |triples| > 0 && !Writes(triples[|triples| - 1], n, i, j) {
      NonNegativeTriples(triples[..|triples| - 1], n, i, j);
    }
  }

  /** The walk 1 -> 2 -> 3 weighs 1 + 2. */
  lemma ViaMiddleWeight(W: Matrix)
    requires IsSquare(W) && |W| == 3
    requires W[0][1] == Fin(1) && W[1][2] == Fin(2)
    ensures Weight(W, [0, 1, 2]) == Fin(3)
  {
    var via: seq<nat> := [0, 1, 2];
    assert via[..2] == [0, 1] && via[..2][..1] == [0];
    assert Weight(W, via[..2]) == Fin(1);
  }

  /** The simple paths from vertex 1 to vertex 3 among three vertices are 1 -> 3 and
      1 -> 2 -> 3; with the weights below neither weighs less than 3. */
  lemma SimplePathsToThird(W: Matrix, q: seq<nat>)
    requires IsSquare(W) && |W| == 3
    requires W[0][1] == Fin(1) && W[1][2] == Fin(2) && W[0][2] == Fin(5)
    requires WalkFromTo(W, q, 0, 2) && Distinct(q) && |q| <= 3
    ensures Le(Fin(3), Weight(W, q))
  {
    if |q| == 2 {
      assert q == [0, 2] && q[..1] == [0];
    } else {
      assert q[1] != 0 && q[1] != 2;
      assert q == [0, 1, 2];
      ViaMiddleWeight(W);
    }
  }

  /** With no negative cycle, every walk from vertex 1 to vertex 3 weighs at least 3. */
  lemma NoWalkLighter(W: Matrix, p: seq<nat>)
    requires IsSquare(W) && |W| == 3 && NoNegativeCycle(W)
    requires W[0][1] == Fin(1) && W[1][2] == Fin(2) && W[0][2] == Fin(5)
    requires WalkFromTo(W, p, 0, 2)
    ensures Le(Fin(3), Weight(W, p))
  {
    var q := Shorten(W, p);
    SimplePathsToThird(W, q);
    LeTransitive(Fin(3), Weight(W, q), Weight(W, p));
  }

  /** Without a negative cycle, a walk weight that no walk between the same vertices
      undercuts is the distance Floyd-Warshall computes. */
  lemma DistanceIs(W: Matrix, via: seq<nat>, i: nat, j: nat)
    requires IsSquare(W) && NoNegativeCycle(W) && WalkFromTo(W, via, i, j)
    requires forall p :: WalkFromTo(W, p, i, j) ==> Le(Weight(W, via), Weight(W, p))
    ensures FW.FinalDistances(W)[i][j] == Weight(W, via)
  {
    var x := FW.FinalDistances(W)[i][j];
    FW.BelowEveryWalk(W, via);
    FW.FinalAttained(W);
    assert Attained(W, i, j, x);
    if x.Fin? {
      var p: seq<nat> :| WalkFromTo(W, p, i, j) && Weight(W, p) == x;
    }
    LeAntisymmetric(x, Weight(W, via));
  }

  /** In any three-vertex graph with non-negative weights, w(1, 2) = 1, w(2, 3) = 2 and
      w(1, 3) = 5, the distance from vertex 1 to vertex 3 is 3. */
  lemma ShorterThroughMiddle(W: Matrix)
    requires IsSquare(W) && |W| == 3
    requires forall a, b :: 0 <= a < 3 && 0 <= b < 3 ==> Le(Fin(0), W[a][b])
    requires W[0][1] == Fin(1) && W[1][2] == Fin(2) && W[0][2] == Fin(5)
    ensures NoNegativeCycle(W)
    ensures FW.FinalDistances(W)[0][2] == Fin(3)
  {
    NonNegativeEdges(W);
    ViaMiddleWeight(W);
    forall p | WalkFromTo(W, p, 0, 2)
      ensures Le(Weight(W, [0, 1, 2]), Weight(W, p))
    {
      NoWalkLighter(W, p);
    }
    DistanceIs(W, [0, 1, 2], 0, 2);
  }

  /** Three vertices with edges 1 -> 2 (weight 1), 2 -> 3 (weight 2) and 1 -> 3
      (weight 5): both solvers find the distance 3 from vertex 1 to vertex 3, through
      vertex 2 rather than along the direct edge. */
  lemma ThroughMiddleVertex()
    ensures var G := Graph(3, [Triple(1, 2, 1), Triple(2, 3, 2), Triple(1, 3, 5)]);
            BF.AllSources(G) == FW.FloydWarshallResult(G) &&
            FW.FloydWarshallResult(G).Distances? && FW.FloydWarshallResult(G).m[0][2] == Fin(3)
  {
    var ts := [Triple(1, 2, 1), Triple(2, 3, 2), Triple(1, 3, 5)];
    var G := Graph(3, ts);
    LastWriteWins(ts, 3, 0, 1, 0);
    LastWriteWins(ts, 3, 1, 2, 1);
    LastWriteWins(ts, 3, 0, 2, 2);
    forall a, b | 0 <= a < 3 && 0 <= b < 3
      ensures Le(Fin(0), G[a][b])
    {
      NonNegativeTriples(ts, 3, a, b);
    }
    ShorterThroughMiddle(G);
    SolversAgree(G);
    FW.NoNegativeDiagonal(G);
  }
}
