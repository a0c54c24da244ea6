/** How the two solvers' answers relate. Without a negative cycle they return the same
    matrix. A negative self-loop is the one kind of negative cycle Floyd-Warshall never
    sees, and on it the comparison as written crashes. */
module Agreement {
  import opened Extended
  import opened Outcomes
  import opened Walks
  import opened Comparison
  import BF = BellmanFordSolver
  import FW = FloydWarshallSolver

  /** One cell: both values are +∞ or walk weights, and each bounds every walk. */
  lemma CellAgrees(W: Matrix, s: nat, v: nat)
    requires IsSquare(W) && NoNegativeCycle(W) && s < |W| && v < |W|
    ensures BF.AfterRounds(W, s)[v] == FW.FinalDistances(W)[s][v]
  {
    var x, y := BF.AfterRounds(W, s)[v], FW.FinalDistances(W)[s][v];
    BF.ShortestDistances(W, s);
    FW.ShortestDistances(W);
    assert Attained(W, s, v, x) && Attained(W, s, v, y);
    if x.Fin? {
      var p: seq<nat> :| WalkFromTo(W, p, s, v) && Weight(W, p) == x;
      assert IsWalk(W, p);
    }
    if y.Fin? {
      var q: seq<nat> :| WalkFromTo(W, q, s, v) && Weight(W, q) == y;
      assert WalkFrom(W, q, s);
    }
    LeAntisymmetric(x, y);
  }

  /** Without a negative cycle both solvers succeed and return the same matrix, so
      the comparison finds them equal and no warning is printed. */
  lemma SolversAgree(W: Matrix)
    requires IsSquare(W) && NoNegativeCycle(W)
    ensures BF.AllSources(W).Distances?
    ensures BF.AllSources(W) == FW.FloydWarshallResult(W)
    ensures Agree(BF.AllSources(W), FW.FloydWarshallResult(W))
  {
    BF.NegativeCycleIffSomeSourceFails(W);
    FW.NoNegativeDiagonal(W);
    var B, F := BF.AllSources(W).m, FW.FinalDistances(W);
    forall s, v | 0 <= s < |W| && 0 <= v < |W|
      ensures B[s][v] == F[s][v]
    {
      CellAgrees(W, s, v);
    }
    CellsEqual(B, F);
  }

  /** A walk of finite weight in W without its self-loops uses none of them, so its
      weight in W is the same. */
  lemma {:induction false} FiniteWeightUsesNoSelfLoop(W: Matrix, p: seq<nat>)
    requires IsSquare(W) && IsWalk(W, p) && Weight(FW.WithoutSelfLoops(W), p).Fin?
    ensures Weight(W, p) == Weight(FW.WithoutSelfLoops(W), p)
    decreases |p|
  {
    if |p| > 1 {
      FiniteWeightUsesNoSelfLoop(W, p[..|p| - 1]);
    }
  }

  /** The three ways a run of both solvers can end. Floyd-Warshall fails only if
      Bellman-Ford fails; when Bellman-Ford succeeds the two return the same matrix;
      and Bellman-Ford alone fails exactly when every negative cycle of the graph
      needs a self-loop. */
  lemma HowTheSolversRelate(W: Matrix)
    requires IsSquare(W)
    ensures FW.FloydWarshallResult(W).NegativeCycle? ==> BF.AllSources(W).NegativeCycle?
    ensures BF.AllSources(W).Distances? ==> BF.AllSources(W) == FW.FloydWarshallResult(W)
    ensures (BF.AllSources(W).NegativeCycle? && FW.FloydWarshallResult(W).Distances?) <==>
              (!NoNegativeCycle(W) && NoNegativeCycle(FW.WithoutSelfLoops(W)))
  {
    var V := FW.WithoutSelfLoops(W);
    BF.NegativeCycleIffSomeSourceFails(W);
    FW.NegativeCycleIffWithoutSelfLoops(W);
    if NoNegativeCycle(W) {
      SolversAgree(W);
    }
    if !NoNegativeCycle(V) {
      var c: seq<nat> :| ClosedWalk(V, c) && !Le(Fin(0), Weight(V, c));
      assert ClosedWalk(W, c);
      FiniteWeightUsesNoSelfLoop(W, c);
    }
  }

  /** For the program as written, the solvers' answers never reach the comparison's
      "unequal" answer: they agree, or the comparison raises TypeError first, so the
      warning for differing results is never printed. */
  lemma WarningUnreachableAsWritten(W: Matrix)
    requires IsSquare(W)
    ensures MatrixEqualityAsWritten(BF.AllSources(W), FW.FloydWarshallResult(W)) != Ok(false)
  {
    HowTheSolversRelate(W);
  }

  /** A negative self-loop in a graph whose other cycles are all non-negative:
      Bellman-Ford reports a negative cycle, Floyd-Warshall returns a non-empty
      matrix, and the comparison as written raises a TypeError instead of reporting
      the mismatch. */
  lemma NegativeSelfLoopSplitsSolvers(W: Matrix, x: nat)
    requires IsSquare(W) && x < |W| && Lt(W[x][x], Fin(0))
    requires NoNegativeCycle(FW.WithoutSelfLoops(W))
    ensures BF.AllSources(W) == NegativeCycle
    ensures FW.FloydWarshallResult(W).Distances? && |FW.FloydWarshallResult(W).m| == |W|
    ensures MatrixEqualityAsWritten(BF.AllSources(W), FW.FloydWarshallResult(W)) == Err(TypeError)
    ensures !Agree(BF.AllSources(W), FW.FloydWarshallResult(W))
  {
    var c := [x, x];
    assert c[..1] == [x];
    assert IsNegativeCycle(W, c);
    HowTheSolversRelate(W);
    FW.NoNegativeDiagonal(FW.WithoutSelfLoops(W));
    FW.IgnoresSelfLoops(W, FW.WithoutSelfLoops(W));
  }

  /** The concrete case: one vertex with a self-loop of weight -1. */
  lemma SelfLoopCounterexample()
    ensures BF.AllSources([[Fin(-1)]]) == NegativeCycle
    ensures FW.FloydWarshallResult([[Fin(-1)]]) == Distances([[Fin(0)]])
    ensures MatrixEqualityAsWritten(NegativeCycle, Distances([[Fin(0)]])) == Err(TypeError)
  {
    var W: Matrix := [[Fin(-1)]];
    assert BF.AfterRounds(W, 0) == [Fin(0)];
    assert BF.CanRelax(W, [Fin(0)], 0, 0);
    var D := FW.InitialDistances(W);
    assert D[0][0] == Fin(0);
    assert D[0] == [Fin(0)];
    var R := FW.FinalDistances(W);
    assert R == FW.SeparateRound(D, 0);
    assert R[0][0] == Fin(0);
    assert R[0] == [Fin(0)];
    assert R == [[Fin(0)]];
  }
}
