/** One run of the program on a parsed input: read the weight matrix, run the solver
    the algorithm letter selects (or both, compared), and hand back what would be
    written out together with whether the mismatch warning was printed. */
module Driver {
  import opened Extended
  import opened Outcomes
  import opened Walks
  import opened WeightMatrix
  import opened Comparison
  import opened Agreement
  import BF = BellmanFordSolver
  import FW = FloydWarshallSolver

  datatype Report = Report(output: Outcome, warned: bool)

  predicate SelectsBellmanFord(algorithm: string) {
    algorithm == "b" || algorithm == "B" || algorithm == "a"
  }

  predicate SelectsFloydWarshall(algorithm: string) {
    algorithm == "f" || algorithm == "F"
  }

  /** Letters "b"/"B" run Bellman-Ford, "f"/"F" Floyd-Warshall, and "a" runs both,
      keeps Bellman-Ford's result and warns when the two disagree; any other letter
      runs nothing and leaves the empty result. */
  method Run(n: nat, triples: seq<Triple>, algorithm: string) returns (r: Result<Report>)
    ensures r.Err? <==> exists t :: 0 <= t < |triples| && Rejected(triples[t], n)
    ensures r.Ok? && SelectsBellmanFord(algorithm) ==> r.value.output == BF.AllSources(Graph(n, triples))
    ensures r.Ok? && SelectsFloydWarshall(algorithm) ==> r.value.output == FW.FloydWarshallResult(Graph(n, triples))
    ensures r.Ok? && !SelectsBellmanFord(algorithm) && !SelectsFloydWarshall(algorithm) ==>
              r.value.output == Distances([])
    ensures r.Ok? ==> (r.value.warned <==>
              algorithm == "a" && !Agree(BF.AllSources(Graph(n, triples)), FW.FloydWarshallResult(Graph(n, triples))))
    ensures r.Ok? && SelectsBellmanFord(algorithm) ==>
              (r.value.output.NegativeCycle? <==> !NoNegativeCycle(Graph(n, triples)))
    ensures r.Ok? && SelectsFloydWarshall(algorithm) ==>
              (r.value.output.NegativeCycle? <==> !NoNegativeCycle(FW.WithoutSelfLoops(Graph(n, triples))))
    ensures r.Ok? && NoNegativeCycle(Graph(n, triples)) ==> !r.value.warned
    ensures r.Ok? && NoNegativeCycle(Graph(n, triples)) && (SelectsBellmanFord(algorithm) || SelectsFloydWarshall(algorithm)) ==>
              r.value.output == Distances(FW.FinalDistances(Graph(n, triples)))
  {
    var read := BuildWeights(n, triples);
    if read.Err? {
      return Err(read.error);
    }
    var W := read.value;
    ghost var G := Graph(n, triples);
    assert forall i :: 0 <= i < n ==> W[i] == G[i];
    assert W == G;
    if NoNegativeCycle(W) {
      SolversAgree(W);
      FW.NoNegativeDiagonal(W);
    }
    var output: Outcome := Distances([]);
    var warned := false;
    if algorithm == "b" || algorithm == "B" {
      output := BF.BellmanFord(W);
    }
    if algorithm == "f" || algorithm == "F" {
      output := FW.FloydWarshall(W);
    }
    if algorithm == "a" {
      var bellman := BF.BellmanFord(W);
      var floyd := FW.FloydWarshall(W);
      output := bellman;
      var same := MatrixEquality(bellman, floyd);
      warned := !same;
    }
    return Ok(Report(output, warned));
  }
}
