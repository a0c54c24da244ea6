/** The Floyd-Warshall solver. The starting matrix has 0 on the diagonal and the edge
    weights off it. Round k (k = 1..n) lets paths pass through vertex k - 1. The first
    round reads the starting matrix and writes a separate result matrix; after it the
    two names denote one matrix, so every later round updates that matrix in place.
    Finally a negative diagonal entry reports a negative cycle. */
module FloydWarshallSolver {
  import opened Extended
  import opened Outcomes
  import opened Walks

  /** 0 on the diagonal, W elsewhere: the weight of a self-loop is never looked at. */
  function InitialDistances(W: Matrix): (D: Matrix)
    requires IsSquare(W)
    ensures |D| == |W| && IsSquare(D)
  {
    seq(|W|, i requires 0 <= i < |W| =>
      seq(|W|, j requires 0 <= j < |W| => if i == j then Fin(0) else W[i][j]))
  }

  /** A round through vertex v that reads D and writes a separate matrix. */
  function SeparateRound(D: Matrix, v: nat): (R: Matrix)
    requires IsSquare(D) && v < |D|
    ensures |R| == |D| && IsSquare(R)
  {
    seq(|D|, i requires 0 <= i < |D| =>
      seq(|D|, j requires 0 <= j < |D| => Min(D[i][j], Add(D[i][v], D[v][j]))))
  }

  /** One in-place update of cell (i, j) through vertex v: only that cell changes, it
      never grows, and it ends no larger than the path through v. */
  function UpdateCell(M: Matrix, v: nat, i: nat, j: nat): (R: Matrix)
    requires IsSquare(M) && v < |M| && i < |M| && j < |M|
    ensures |R| == |M| && IsSquare(R)
    ensures forall a, b :: 0 <= a < |M| && 0 <= b < |M| && (a != i || b != j) ==> R[a][b] == M[a][b]
    ensures Le(R[i][j], M[i][j]) && Le(R[i][j], Add(M[i][v], M[v][j]))
  {
    M[i := M[i][j := Min(M[i][j], Add(M[i][v], M[v][j]))]]
  }

  /** Cells (i, 0), ..., (i, j - 1) updated in place, in that order. */
  function UpdateRow(M: Matrix, v: nat, i: nat, j: nat): (R: Matrix)
    requires IsSquare(M) && v < |M| && i < |M| && j <= |M|
    ensures |R| == |M| && IsSquare(R)
    decreases j
  {
    if j == 0 then M else UpdateCell(UpdateRow(M, v, i, j - 1), v, i, j - 1)
  }

  /** Rows 0, ..., i - 1 updated in place: a whole in-place round when i == |M|. */
  function UpdatePass(M: Matrix, v: nat, i: nat): (R: Matrix)
    requires IsSquare(M) && v < |M| && i <= |M|
    ensures |R| == |M| && IsSquare(R)
    decreases i
  {
    if i == 0 then M else UpdateRow(UpdatePass(M, v, i - 1), v, i - 1, |M|)
  }

  /** The matrix after rounds 1..k: the first one separate, the others in place. */
  function Layers(W: Matrix, k: nat): (R: Matrix)
    requires IsSquare(W) && 1 <= k <= |W|
    ensures |R| == |W| && IsSquare(R)
    decreases k
  {
    if k == 1 then SeparateRound(InitialDistances(W), 0)
    else UpdatePass(Layers(W, k - 1), k - 1, |W|)
  }

  /** The matrix after all the rounds (the empty matrix when there are no vertices). */
  function FinalDistances(W: Matrix): (R: Matrix)
    requires IsSquare(W)
    ensures |R| == |W| && IsSquare(R)
  {
    if |W| == 0 then [] else Layers(W, |W|)
  }

  predicate NegativeDiagonal(M: Matrix)
    requires IsSquare(M)
  {
    exists i :: 0 <= i < |M| && Lt(M[i][i], Fin(0))
  }

  /** What the solver returns. */
  function FloydWarshallResult(W: Matrix): Outcome
    requires IsSquare(W)
  {
    var R := FinalDistances(W);
    if NegativeDiagonal(R) then NegativeCycle else Distances(R)
  }

  // ---------------------------------------------------------------------------
  // The loops, on two-dimensional arrays

  /** Array a holds matrix M. */
  ghost predicate Holds(a: array2<Ext>, M: Matrix)
    reads a
  {
    a.Length0 == |M| && a.Length1 == |M| && IsSquare(M) &&
    forall i, j :: 0 <= i < |M| && 0 <= j < |M| ==> a[i, j] == M[i][j]
  }

  /** One round through vertex v: every cell of p becomes min(d[i][j], d[i][v] + d[v][j]).
      When d and p are the same array the round works in place. */
  method Round(d: array2<Ext>, p: array2<Ext>, v: nat, ghost D: Matrix, ghost P: Matrix)
    requires Holds(d, D) && Holds(p, P) && |D| == |P| && v < |P|
    modifies p
    ensures d == p ==> Holds(p, UpdatePass(P, v, |P|))
    ensures d != p ==> Holds(p, SeparateRound(D, v)) && Holds(d, D)
  {
    if d == p {
      RoundInPlace(p, v, P);
    } else {
      RoundSeparate(d, p, v, D);
    }
  }

  /** The round when both names denote one array: later cells read earlier results. */
  method RoundInPlace(p: array2<Ext>, v: nat, ghost P: Matrix)
    requires Holds(p, P) && v < |P|
    modifies p
    ensures Holds(p, UpdatePass(P, v, |P|))
  {
    var n := p.Length0;
    for i := 0 to n
      invariant Holds(p, UpdatePass(P, v, i))
    {
      for j := 0 to n
        invariant Holds(p, UpdateRow(UpdatePass(P, v, i), v, i, j))
      {
        ghost var M := UpdateRow(UpdatePass(P, v, i), v, i, j);
        var prev := p[i, j];
        var take := Add(p[i, v], p[v, j]);
        p[i, j] := Min(prev, take);
        assert Holds(p, UpdateCell(M, v, i, j));
      }
    }
  }

  /** The round from array d into a different array p: d is only read. */
  method RoundSeparate(d: array2<Ext>, p: array2<Ext>, v: nat, ghost D: Matrix)
    requires d != p && Holds(d, D) && p.Length0 == |D| && p.Length1 == |D| && v < |D|
    modifies p
    ensures Holds(p, SeparateRound(D, v)) && Holds(d, D)
  {
    var n := p.Length0;
    for i := 0 to n
      invariant Holds(d, D)
      invariant forall a, b :: 0 <= a < i && 0 <= b < n ==> p[a, b] == SeparateRound(D, v)[a][b]
    {
      for j := 0 to n
        invariant Holds(d, D)
        invariant forall a, b :: 0 <= a < i && 0 <= b < n ==> p[a, b] == SeparateRound(D, v)[a][b]
        invariant forall b :: 0 <= b < j ==> p[i, b] == SeparateRound(D, v)[i][b]
      {
        var prev := d[i, j];
        var take := Add(d[i, v], d[v, j]);
        p[i, j] := Min(prev, take);
      }
    }
  }

  /** The starting matrix: an n×n array of zeros, then for every off-diagonal cell the
      edge weight, or +∞ where there is no edge. */
  method StartingMatrix(W: Matrix) returns (d: array2<Ext>)
    requires IsSquare(W)
    ensures fresh(d) && Holds(d, InitialDistances(W))
  {
    var length := |W|;
    d := new Ext[length, length]((i, j) => Fin(0));
    ghost var start := InitialDistances(W);
    for i := 0 to length
      invariant forall a, b :: 0 <= a < i && 0 <= b < length ==> d[a, b] == start[a][b]
      invariant forall a, b :: i <= a < length && 0 <= b < length ==> d[a, b] == Fin(0)
    {
      for j := 0 to length
        invariant forall a, b :: 0 <= a < i && 0 <= b < length ==> d[a, b] == start[a][b]
        invariant forall b :: 0 <= b < j ==> d[i, b] == start[i][b]
        invariant forall a, b :: i <= a < length && 0 <= b < length && (a > i || b >= j) ==> d[a, b] == Fin(0)
      {
        if i != j {
          if W[i][j].Fin? {
            d[i, j] := Fin(W[i][j].v);
          } else {
            d[i, j] := Inf;
          }
        }
      }
    }
  }

  /** The diagonal check; on success the array becomes the returned rows. */
  method CheckDiagonal(p: array2<Ext>, ghost R: Matrix) returns (r: Outcome)
    requires Holds(p, R)
    ensures r == if NegativeDiagonal(R) then NegativeCycle else Distances(R)
  {
    var length := p.Length0;
    for i := 0 to length
      invariant forall a :: 0 <= a < i ==> !Lt(R[a][a], Fin(0))
    {
      if Lt(p[i, i], Fin(0)) {
        return NegativeCycle;
      }
    }
    var rows := seq(length, i requires 0 <= i < length reads p =>
                  seq(length, j requires 0 <= j < length reads p => p[i, j]));
    assert forall i :: 0 <= i < length ==> rows[i] == R[i];
    assert rows == R;
    return Distances(rows);
  }

  method FloydWarshall(W: Matrix) returns (r: Outcome)
    requires IsSquare(W)
    ensures r == FloydWarshallResult(W)
    ensures r.NegativeCycle? <==> !NoNegativeCycle(WithoutSelfLoops(W))
    ensures r.Distances? ==> |r.m| == |W| && IsSquare(r.m)
  {
    var length := |W|;
    var d := StartingMatrix(W);
    var pathPairs := new Ext[length, length]((i, j) => Fin(0));
    ghost var zeros: Matrix := seq(length, i => seq(length, j => Fin(0)));
    assert Holds(pathPairs, zeros);
    for k := 1 to length + 1
      invariant k == 1 ==> d != pathPairs && Holds(d, InitialDistances(W)) && Holds(pathPairs, zeros)
      invariant k > 1 ==> d == pathPairs && Holds(pathPairs, Layers(W, k - 1))
    {
      Round(d, pathPairs, k - 1, if k == 1 then InitialDistances(W) else Layers(W, k - 1),
            if k == 1 then zeros else Layers(W, k - 1));
      // from here on both names denote the same matrix
      d := pathPairs;
    }
    r := CheckDiagonal(pathPairs, FinalDistances(W));
    NegativeCycleIffWithoutSelfLoops(W);
  }

  // ---------------------------------------------------------------------------
  // What a round guarantees

  /** After a round through v no entry grew, and each entry is no larger than the path
      through v computed from the matrix the round started with. */
  ghost predicate Improves(M: Matrix, R: Matrix, v: nat)
    requires IsSquare(M) && IsSquare(R) && |M| == |R| && v < |M|
  {
    MatrixLe(R, M) &&
    forall i, j :: 0 <= i < |M| && 0 <= j < |M| ==> Le(R[i][j], Add(M[i][v], M[v][j]))
  }

  lemma {:induction false} UpdateRowBound(M: Matrix, v: nat, i: nat, j: nat)
    requires IsSquare(M) && v < |M| && i < |M| && j <= |M|
    ensures MatrixLe(UpdateRow(M, v, i, j), M)
    ensures forall b :: 0 <= b < j ==> Le(UpdateRow(M, v, i, j)[i][b], Add(M[i][v], M[v][b]))
    decreases j
  {
    if j > 0 {
      UpdateRowBound(M, v, i, j - 1);
      var X := UpdateRow(M, v, i, j - 1);
      var R := UpdateCell(X, v, i, j - 1);
      forall a, b | 0 <= a < |M| && 0 <= b < |M|
        ensures Le(R[a][b], M[a][b])
      {
        LeTransitive(R[a][b], X[a][b], M[a][b]);
      }
      forall b | 0 <= b < j
        ensures Le(R[i][b], Add(M[i][v], M[v][b]))
      {
        if b < j - 1 {
          LeTransitive(R[i][b], X[i][b], Add(M[i][v], M[v][b]));
        } else {
          AddMonotone(X[i][v], M[i][v], X[v][b], M[v][b]);
          LeTransitive(R[i][b], Add(X[i][v], X[v][b]), Add(M[i][v], M[v][b]));
        }
      }
    }
  }

  lemma {:induction false} UpdatePassBound(M: Matrix, v: nat, i: nat)
    requires IsSquare(M) && v < |M| && i <= |M|
    ensures MatrixLe(UpdatePass(M, v, i), M)
    ensures forall a, b :: 0 <= a < i && 0 <= b < |M| ==> Le(UpdatePass(M, v, i)[a][b], Add(M[a][v], M[v][b]))
    decreases i
  {
    if i > 0 {
      UpdatePassBound(M, v, i - 1);
      var X := UpdatePass(M, v, i - 1);
      UpdateRowBound(X, v, i - 1, |M|);
      var R := UpdatePass(M, v, i);
      forall a, b | 0 <= a < |M| && 0 <= b < |M|
        ensures Le(R[a][b], M[a][b])
      {
        LeTransitive(R[a][b], X[a][b], M[a][b]);
      }
      forall a, b | 0 <= a < i && 0 <= b < |M|
        ensures Le(R[a][b], Add(M[a][v], M[v][b]))
      {
        if a < i - 1 {
          LeTransitive(R[a][b], X[a][b], Add(M[a][v], M[v][b]));
        } else {
          AddMonotone(X[a][v], M[a][v], X[v][b], M[v][b]);
          LeTransitive(R[a][b], Add(X[a][v], X[v][b]), Add(M[a][v], M[v][b]));
        }
      }
    }
  }

  /** Rounds never raise an entry, whether separate or in place; in place, a cell
      may already see entries lowered earlier in the same round. */
  lemma RoundImproves(M: Matrix, v: nat)
    requires IsSquare(M) && v < |M|
    ensures Improves(M, SeparateRound(M, v), v)
    ensures Improves(M, UpdatePass(M, v, |M|), v)
  {
    UpdatePassBound(M, v, |M|);
  }

  /** Every entry is +∞ or the weight of a walk between its two vertices. */
  ghost predicate AllAttained(W: Matrix, M: Matrix)
    requires IsSquare(W) && IsSquare(M) && |M| == |W|
  {
    forall i, j :: 0 <= i < |M| && 0 <= j < |M| ==> Attained(W, i, j, M[i][j])
  }

  lemma ThroughAttained(W: Matrix, i: nat, v: nat, j: nat, x: Ext, y: Ext, z: Ext)
    requires IsSquare(W) && i < |W| && v < |W| && j < |W|
    requires Attained(W, i, j, x) && Attained(W, i, v, y) && Attained(W, v, j, z)
    ensures Attained(W, i, j, Min(x, Add(y, z)))
  {
    if Lt(Add(y, z), x) {
      var p: seq<nat> :| WalkFromTo(W, p, i, v) && Weight(W, p) == y;
      var q: seq<nat> :| WalkFromTo(W, q, v, j) && Weight(W, q) == z;
      var r := Join(W, p, q);
      assert Min(x, Add(y, z)) == Weight(W, r);
    }
  }

  lemma InitialAttained(W: Matrix)
    requires IsSquare(W)
    ensures AllAttained(W, InitialDistances(W))
  {
    var D := InitialDistances(W);
    forall i, j | 0 <= i < |W| && 0 <= j < |W|
      ensures Attained(W, i, j, D[i][j])
    {
      if i == j {
        assert WalkFromTo(W, [i], i, i) && Weight(W, [i]) == Fin(0);
      } else {
        AppendWeight(W, [i], j);
        assert [i] + [j] == [i, j];
        assert WalkFromTo(W, [i, j], i, j) && Weight(W, [i, j]) == W[i][j];
      }
    }
  }

  lemma SeparateRoundAttained(W: Matrix, D: Matrix, v: nat)
    requires IsSquare(W) && IsSquare(D) && |D| == |W| && v < |W| && AllAttained(W, D)
    ensures AllAttained(W, SeparateRound(D, v))
  {
    forall i, j | 0 <= i < |W| && 0 <= j < |W|
      ensures Attained(W, i, j, SeparateRound(D, v)[i][j])
    {
      ThroughAttained(W, i, v, j, D[i][j], D[i][v], D[v][j]);
    }
  }

  lemma {:induction false} UpdateRowAttained(W: Matrix, M: Matrix, v: nat, i: nat, j: nat)
    requires IsSquare(W) && IsSquare(M) && |M| == |W| && v < |W| && i < |W| && j <= |W|
    requires AllAttained(W, M)
    ensures AllAttained(W, UpdateRow(M, v, i, j))
    decreases j
  {
    if j > 0 {
      UpdateRowAttained(W, M, v, i, j - 1);
      var X := UpdateRow(M, v, i, j - 1);
      ThroughAttained(W, i, v, j - 1, X[i][j - 1], X[i][v], X[v][j - 1]);
    }
  }

  lemma {:induction false} UpdatePassAttained(W: Matrix, M: Matrix, v: nat, i: nat)
    requires IsSquare(W) && IsSquare(M) && |M| == |W| && v < |W| && i <= |W|
    requires AllAttained(W, M)
    ensures AllAttained(W, UpdatePass(M, v, i))
    decreases i
  {
    if i > 0 {
      UpdatePassAttained(W, M, v, i - 1);
      UpdateRowAttained(W, UpdatePass(M, v, i - 1), v, i - 1, |W|);
    }
  }

  /** After any number of rounds every entry is +∞ or the weight of a walk. */
  lemma {:induction false} LayersAttained(W: Matrix, k: nat)
    requires IsSquare(W) && 1 <= k <= |W|
    ensures AllAttained(W, Layers(W, k))
    decreases k
  {
    if k == 1 {
      InitialAttained(W);
      SeparateRoundAttained(W, InitialDistances(W), 0);
    } else {
      LayersAttained(W, k - 1);
      UpdatePassAttained(W, Layers(W, k - 1), k - 1, |W|);
    }
  }

  /** q is a simple path or a simple cycle, not a self-loop, whose inner vertices are
      all below k. */
  predicate SimpleBelow(W: Matrix, q: seq<nat>, k: nat) {
    IsWalk(W, q) && InnerDistinct(q) && (|q| == 2 ==> q[0] != q[1]) &&
    forall t :: 0 < t < |q| - 1 ==> q[t] < k
  }

  /** No entry exceeds the weight of a simple path between its vertices whose inner
      vertices are below k. */
  ghost predicate PathBounded(W: Matrix, M: Matrix, k: nat)
    requires IsSquare(W) && IsSquare(M) && |M| == |W|
  {
    forall q {:trigger SimpleBelow(W, q, k)} :: SimpleBelow(W, q, k) ==> Le(M[q[0]][q[|q| - 1]], Weight(W, q))
  }

  lemma HasInnerVertex(q: seq<nat>)
    requires |q| >= 3
    ensures !(forall t :: 0 < t < |q| - 1 ==> q[t] < 0)
  {
    assert q[1] >= 0;
  }

  /** The starting matrix bounds the walks with no inner vertex: single vertices and
      edges between distinct vertices. */
  lemma InitialPathBounded(W: Matrix)
    requires IsSquare(W)
    ensures PathBounded(W, InitialDistances(W), 0)
  {
    var D := InitialDistances(W);
    forall q | SimpleBelow(W, q, 0)
      ensures Le(D[q[0]][q[|q| - 1]], Weight(W, q))
    {
      if |q| >= 3 {
        HasInnerVertex(q);
      } else if |q| == 2 {
        assert q == [q[0]] + [q[1]];
        AppendWeight(W, [q[0]], q[1]);
      }
    }
  }

  /** A path whose inner vertices are below v + 1 and which passes through v splits
      there into two paths whose inner vertices are below v. */
  lemma SplitAtVertex(W: Matrix, q: seq<nat>, t: nat, v: nat)
    requires IsSquare(W) && SimpleBelow(W, q, v + 1) && 0 < t < |q| - 1 && q[t] == v
    ensures SimpleBelow(W, q[..t + 1], v) && SimpleBelow(W, q[t..], v)
    ensures Weight(W, q) == Add(Weight(W, q[..t + 1]), Weight(W, q[t..]))
  {
    var front, back := q[..t + 1], q[t..];
    SplitWeight(W, q, t);
    assert forall s :: 0 <= s < |front| ==> front[s] == q[s];
    assert forall s :: 0 <= s < |back| ==> back[s] == q[t + s];
  }

  /** A round through v extends the bound to paths whose inner vertices are below v + 1:
      such a path through v splits there into two paths with inner vertices below v. */
  lemma PathBoundStep(W: Matrix, M: Matrix, R: Matrix, v: nat)
    requires IsSquare(W) && IsSquare(M) && IsSquare(R) && |M| == |W| && |R| == |W| && v < |W|
    requires PathBounded(W, M, v) && Improves(M, R, v)
    ensures PathBounded(W, R, v + 1)
  {
    forall q | SimpleBelow(W, q, v + 1)
      ensures Le(R[q[0]][q[|q| - 1]], Weight(W, q))
    {
      var i, j := q[0], q[|q| - 1];
      if t :| 0 < t < |q| - 1 && q[t] == v {
        SplitAtVertex(W, q, t, v);
        var front, back := q[..t + 1], q[t..];
        assert Le(M[i][v], Weight(W, front)) && Le(M[v][j], Weight(W, back));
        AddMonotone(M[i][v], Weight(W, front), M[v][j], Weight(W, back));
        LeTransitive(R[i][j], Add(M[i][v], M[v][j]), Weight(W, q));
      } else {
        assert SimpleBelow(W, q, v);
        LeTransitive(R[i][j], M[i][j], Weight(W, q));
      }
    }
  }

  /** Either kind of round through v extends the bound from v to v + 1. */
  lemma RoundPathBounded(W: Matrix, M: Matrix, v: nat)
    requires IsSquare(W) && IsSquare(M) && |M| == |W| && v < |W| && PathBounded(W, M, v)
    ensures PathBounded(W, SeparateRound(M, v), v + 1)
    ensures PathBounded(W, UpdatePass(M, v, |M|), v + 1)
  {
    RoundImproves(M, v);
    PathBoundStep(W, M, SeparateRound(M, v), v);
    PathBoundStep(W, M, UpdatePass(M, v, |M|), v);
  }

  /** After k rounds no entry exceeds the weight of a simple path whose inner vertices
      are below k. */
  lemma {:induction false} LayersPathBounded(W: Matrix, k: nat)
    requires IsSquare(W) && 1 <= k <= |W|
    ensures PathBounded(W, Layers(W, k), k)
    decreases k
  {
    if k == 1 {
      InitialPathBounded(W);
      RoundPathBounded(W, InitialDistances(W), 0);
    } else {
      LayersPathBounded(W, k - 1);
      RoundPathBounded(W, Layers(W, k - 1), k - 1);
    }
  }

  // ---------------------------------------------------------------------------
  // Correctness

  /** Without a negative cycle no walk is lighter than the final entry for its end
      points: it shortens to a simple path that the rounds have bounded. */
  lemma BelowEveryWalk(W: Matrix, p: seq<nat>)
    requires IsSquare(W) && NoNegativeCycle(W) && IsWalk(W, p)
    ensures Le(FinalDistances(W)[p[0]][p[|p| - 1]], Weight(W, p))
  {
    var R := FinalDistances(W);
    assert p[0] < |W|;
    LayersPathBounded(W, |W|);
    var q := Shorten(W, p);
    assert SimpleBelow(W, q, |W|);
    LeTransitive(R[p[0]][p[|p| - 1]], Weight(W, q), Weight(W, p));
  }

  /** Every final entry is +∞ or the weight of a walk. */
  lemma FinalAttained(W: Matrix)
    requires IsSquare(W)
    ensures AllAttained(W, FinalDistances(W))
  {
    if |W| > 0 {
      LayersAttained(W, |W|);
    }
  }

  /** Without a negative cycle the final matrix holds shortest distances: each entry is
      +∞ or the weight of a walk, and no walk between the same vertices is lighter. */
  lemma ShortestDistances(W: Matrix)
    requires IsSquare(W) && NoNegativeCycle(W)
    ensures AllAttained(W, FinalDistances(W))
    ensures forall p :: IsWalk(W, p) ==> Le(FinalDistances(W)[p[0]][p[|p| - 1]], Weight(W, p))
  {
    FinalAttained(W);
    forall p | IsWalk(W, p)
      ensures Le(FinalDistances(W)[p[0]][p[|p| - 1]], Weight(W, p))
    {
      BelowEveryWalk(W, p);
    }
  }

  /** Without a negative cycle no diagonal entry ends negative, so the solver returns
      the final matrix. */
  lemma NoNegativeDiagonal(W: Matrix)
    requires IsSquare(W) && NoNegativeCycle(W)
    ensures !NegativeDiagonal(FinalDistances(W))
    ensures FloydWarshallResult(W) == Distances(FinalDistances(W))
  {
    var R := FinalDistances(W);
    ShortestDistances(W);
    forall i | 0 <= i < |W|
      ensures !Lt(R[i][i], Fin(0))
    {
      assert Attained(W, i, i, R[i][i]);
      if R[i][i].Fin? {
        var p: seq<nat> :| WalkFromTo(W, p, i, i) && Weight(W, p) == R[i][i];
        if |p| >= 2 {
          assert ClosedWalk(W, p);
        }
      }
    }
  }

  /** A negative diagonal entry is the weight of a negative cycle. */
  lemma NegativeDiagonalIsNegativeCycle(W: Matrix)
    requires IsSquare(W) && |W| > 0 && NegativeDiagonal(FinalDistances(W))
    ensures exists c :: IsNegativeCycle(W, c)
  {
    var R := FinalDistances(W);
    var i :| 0 <= i < |W| && Lt(R[i][i], Fin(0));
    LayersAttained(W, |W|);
    assert Attained(W, i, i, R[i][i]);
    var p: seq<nat> :| WalkFromTo(W, p, i, i) && Weight(W, p) == R[i][i];
    assert IsNegativeCycle(W, p);
  }

  /** The solver reads no diagonal entry of W: two graphs that differ only in their
      self-loops get the same answer. */
  lemma IgnoresSelfLoops(W: Matrix, V: Matrix)
    requires IsSquare(W) && IsSquare(V) && |W| == |V|
    requires forall i, j :: 0 <= i < |W| && 0 <= j < |W| && i != j ==> W[i][j] == V[i][j]
    ensures FloydWarshallResult(W) == FloydWarshallResult(V)
  {
    assert forall i :: 0 <= i < |W| ==> InitialDistances(W)[i] == InitialDistances(V)[i];
    assert InitialDistances(W) == InitialDistances(V);
    if |W| > 0 {
      LayersEqual(W, V, |W|);
    }
  }

  lemma {:induction false} LayersEqual(W: Matrix, V: Matrix, k: nat)
    requires IsSquare(W) && IsSquare(V) && |W| == |V| && 1 <= k <= |W|
    requires InitialDistances(W) == InitialDistances(V)
    ensures Layers(W, k) == Layers(V, k)
    decreases k
  {
    if k > 1 {
      LayersEqual(W, V, k - 1);
    }
  }

  /** W with every self-loop removed. */
  function WithoutSelfLoops(W: Matrix): (V: Matrix)
    requires IsSquare(W)
    ensures IsSquare(V) && |V| == |W|
    ensures forall i, j :: 0 <= i < |W| && 0 <= j < |W| ==> V[i][j] == if i == j then Inf else W[i][j]
  {
    seq(|W|, i requires 0 <= i < |W| =>
      seq(|W|, j requires 0 <= j < |W| => if i == j then Inf else W[i][j]))
  }

  /** In a graph without self-loops, a negative cycle leaves a negative diagonal entry:
      its simple negative sub-cycle bounds the entry of its first vertex. */
  lemma DetectsNegativeCycle(W: Matrix, c: seq<nat>)
    requires IsSquare(W) && IsNegativeCycle(W, c)
    requires forall i :: 0 <= i < |W| ==> W[i][i].Inf?
    ensures NegativeDiagonal(FinalDistances(W))
  {
    var d := SimpleNegativeCycle(W, c);
    assert SimpleBelow(W, d, |W|);
    LayersPathBounded(W, |W|);
    var R := FinalDistances(W);
    assert Le(R[d[0]][d[0]], Weight(W, d));
  }

  /** When the graph without its self-loops has no negative cycle, the solver returns
      that graph's final distances, so its shortest distances, and not necessarily
      those of the graph itself. */
  lemma DistancesWithoutSelfLoops(W: Matrix)
    requires IsSquare(W) && NoNegativeCycle(WithoutSelfLoops(W))
    ensures FloydWarshallResult(W) == Distances(FinalDistances(WithoutSelfLoops(W)))
  {
    IgnoresSelfLoops(W, WithoutSelfLoops(W));
    NoNegativeDiagonal(WithoutSelfLoops(W));
  }

  /** The solver reports a negative cycle exactly when the graph has one that uses no
      self-loop. */
  lemma NegativeCycleIffWithoutSelfLoops(W: Matrix)
    requires IsSquare(W)
    ensures FloydWarshallResult(W).NegativeCycle? <==> !NoNegativeCycle(WithoutSelfLoops(W))
  {
    var V := WithoutSelfLoops(W);
    IgnoresSelfLoops(W, V);
    if NoNegativeCycle(V) {
      NoNegativeDiagonal(V);
    } else {
      var c: seq<nat> :| ClosedWalk(V, c) && !Le(Fin(0), Weight(V, c));
      LeTotal(Weight(V, c), Fin(0));
      DetectsNegativeCycle(V, c);
    }
  }

  /** Without a negative cycle every vertex is at distance 0 from itself. */
  lemma DiagonalZero(W: Matrix)
    requires IsSquare(W) && NoNegativeCycle(W)
    ensures forall i :: 0 <= i < |W| ==> FinalDistances(W)[i][i] == Fin(0)
  {
    ShortestDistances(W);
    NoNegativeDiagonal(W);
    forall i | 0 <= i < |W|
      ensures FinalDistances(W)[i][i] == Fin(0)
    {
      assert IsWalk(W, [i]) && Weight(W, [i]) == Fin(0);
    }
  }

  lemma TriangleCell(W: Matrix, i: nat, k: nat, j: nat)
    requires IsSquare(W) && NoNegativeCycle(W) && i < |W| && k < |W| && j < |W|
    ensures Le(FinalDistances(W)[i][j], Add(FinalDistances(W)[i][k], FinalDistances(W)[k][j]))
  {
    var R: Matrix := FinalDistances(W);
    if R[i][k].Fin? && R[k][j].Fin? {
      FinalAttained(W);
      assert Attained(W, i, k, R[i][k]) && Attained(W, k, j, R[k][j]);
      var p: seq<nat> :| WalkFromTo(W, p, i, k) && Weight(W, p) == R[i][k];
      var q: seq<nat> :| WalkFromTo(W, q, k, j) && Weight(W, q) == R[k][j];
      var pq := Join(W, p, q);
      BelowEveryWalk(W, pq);
    }
  }

  /** Without a negative cycle the final matrix satisfies the triangle inequality. */
  lemma TriangleInequality(W: Matrix)
    requires IsSquare(W) && NoNegativeCycle(W)
    ensures forall i, k, j :: 0 <= i < |W| && 0 <= k < |W| && 0 <= j < |W| ==>
              Le(FinalDistances(W)[i][j], Add(FinalDistances(W)[i][k], FinalDistances(W)[k][j]))
  {
    forall i, k, j | 0 <= i < |W| && 0 <= k < |W| && 0 <= j < |W|
      ensures Le(FinalDistances(W)[i][j], Add(FinalDistances(W)[i][k], FinalDistances(W)[k][j]))
    {
      TriangleCell(W, i, k, j);
    }
  }
}
