/** The Bellman-Ford solver: |W| - 1 full relaxation rounds over every cell of
    the weight matrix for one source, an extra pass that reports a negative cycle
    when some edge can still be relaxed, and one such run per source vertex. */
module BellmanFordSolver {
  import opened Extended
  import opened Outcomes
  import opened Walks

  /** Before the first round: +∞ everywhere, then 0 at the source. */
  function InitialRow(n: nat, s: nat): (d: seq<Ext>)
    requires s < n
    ensures |d| == n && d[s] == Fin(0)
    ensures forall v :: 0 <= v < n && v != s ==> d[v] == Inf
  {
    seq(n, _ => Inf)[s := Fin(0)]
  }

  /** Edge (i, j) exists and going through it would shorten d[j]. */
  predicate CanRelax(W: Matrix, d: seq<Ext>, i: nat, j: nat)
    requires IsSquare(W) && |d| == |W| && i < |W| && j < |W|
  {
    W[i][j].Fin? && Lt(Add(d[i], W[i][j]), d[j])
  }

  /** One relaxation step on cell (i, j): only d[j] can change, it never grows, it ends
      no larger than d[i] + W[i][j], and nothing is relaxed out of a +∞ entry. */
  function RelaxEdge(W: Matrix, d: seq<Ext>, i: nat, j: nat): (r: seq<Ext>)
    requires IsSquare(W) && |d| == |W| && i < |W| && j < |W|
    ensures |r| == |d|
    ensures forall v :: 0 <= v < |d| && v != j ==> r[v] == d[v]
    ensures Le(r[j], d[j]) && Le(r[j], Add(d[i], W[i][j]))
    ensures d[i].Inf? ==> r == d
  {
    if CanRelax(W, d, i, j) then d[j := Add(d[i], W[i][j])] else d
  }

  /** Cells (i, 0), ..., (i, j - 1) relaxed in that order, on the same row of distances. */
  function RelaxRow(W: Matrix, d: seq<Ext>, i: nat, j: nat): (r: seq<Ext>)
    requires IsSquare(W) && |d| == |W| && i < |W| && j <= |W|
    ensures |r| == |d|
    decreases j
  {
    if j == 0 then d else RelaxEdge(W, RelaxRow(W, d, i, j - 1), i, j - 1)
  }

  /** Rows 0, ..., i - 1 of the matrix relaxed in order: a whole round when i == |W|. */
  function Pass(W: Matrix, d: seq<Ext>, i: nat): (r: seq<Ext>)
    requires IsSquare(W) && |d| == |W| && i <= |W|
    ensures |r| == |d|
    decreases i
  {
    if i == 0 then d else RelaxRow(W, Pass(W, d, i - 1), i - 1, |W|)
  }

  /** k full rounds. */
  function Rounds(W: Matrix, d: seq<Ext>, k: nat): (r: seq<Ext>)
    requires IsSquare(W) && |d| == |W|
    ensures |r| == |d|
    decreases k
  {
    if k == 0 then d else Pass(W, Rounds(W, d, k - 1), |W|)
  }

  /** The row of distances from s after the |W| - 1 rounds. */
  function AfterRounds(W: Matrix, s: nat): (d: seq<Ext>)
    requires IsSquare(W) && s < |W|
    ensures |d| == |W|
  {
    Rounds(W, InitialRow(|W|, s), |W| - 1)
  }

  predicate Relaxable(W: Matrix, d: seq<Ext>)
    requires IsSquare(W) && |d| == |W|
  {
    exists i, j :: 0 <= i < |W| && 0 <= j < |W| && CanRelax(W, d, i, j)
  }

  /** What the single-source run returns: False (None) when the extra pass finds an
      edge still to relax, the row of distances otherwise. */
  function SingleSource(W: Matrix, s: nat): Option<seq<Ext>>
    requires IsSquare(W) && s < |W|
  {
    var d := AfterRounds(W, s);
    if Relaxable(W, d) then None else Some(d)
  }

  /** What the all-sources run returns: False as soon as one source fails, else the rows. */
  function AllSources(W: Matrix): Outcome
    requires IsSquare(W)
  {
    if exists s :: 0 <= s < |W| && Relaxable(W, AfterRounds(W, s)) then NegativeCycle
    else Distances(seq(|W|, s requires 0 <= s < |W| => AfterRounds(W, s)))
  }

  // ---------------------------------------------------------------------------
  // The relaxation loops

  /** One round: every cell, row by row, relaxed in place on the same row d. */
  method RelaxPass(W: Matrix, d: array<Ext>)
    requires IsSquare(W) && d.Length == |W|
    modifies d
    ensures d[..] == Pass(W, old(d[..]), |W|)
  {
    var n := |W|;
    ghost var roundStart := d[..];
    for i := 0 to n
      invariant d[..] == Pass(W, roundStart, i)
    {
      ghost var rowStart := d[..];
      for j := 0 to n
        invariant d[..] == RelaxRow(W, rowStart, i, j)
      {
        if W[i][j].Fin? {
          if Lt(Add(d[i], W[i][j]), d[j]) {
            d[j] := Add(d[i], W[i][j]);
          }
        }
      }
    }
  }

  /** The extra pass: is there an edge that could still be relaxed? */
  method FindRelaxable(W: Matrix, d: array<Ext>) returns (found: bool)
    requires IsSquare(W) && d.Length == |W|
    ensures found == Relaxable(W, d[..])
  {
    var n := |W|;
    for i := 0 to n
      invariant forall a, b :: 0 <= a < i && 0 <= b < n ==> !CanRelax(W, d[..], a, b)
    {
      for j := 0 to n
        invariant forall a, b :: 0 <= a < i && 0 <= b < n ==> !CanRelax(W, d[..], a, b)
        invariant forall b :: 0 <= b < j ==> !CanRelax(W, d[..], i, b)
      {
        if W[i][j].Fin? {
          if Lt(Add(d[i], W[i][j]), d[j]) {
            assert CanRelax(W, d[..], i, j);
            return true;
          }
        }
      }
    }
    return false;
  }

  method ShortestPath(W: Matrix, s: nat) returns (r: Option<seq<Ext>>)
    requires IsSquare(W) && s < |W|
    ensures r == SingleSource(W, s)
    ensures r.Some? ==> |r.value| == |W|
    ensures r.Some? ==> forall i, j :: 0 <= i < |W| && 0 <= j < |W| && W[i][j].Fin? ==>
                          Le(r.value[j], Add(r.value[i], W[i][j]))
  {
    var n := |W|;
    var d := new Ext[n];
    for v := 0 to n
      invariant forall a :: 0 <= a < v ==> d[a] == Inf
    {
      d[v] := Inf;
    }
    d[s] := Fin(0);
    ghost var init := d[..];
    assert init == InitialRow(n, s);
    for k := 0 to n - 1
      invariant d[..] == Rounds(W, init, k)
    {
      RelaxPass(W, d);
    }
    var relaxable := FindRelaxable(W, d);
    if relaxable {
      return None;
    }
    ghost var final := d[..];
    forall i, j | 0 <= i < n && 0 <= j < n && W[i][j].Fin?
      ensures Le(final[j], Add(final[i], W[i][j]))
    {
      assert !CanRelax(W, final, i, j);
      LeTotal(Add(final[i], W[i][j]), final[j]);
    }
    return Some(d[..]);
  }

  method BellmanFord(W: Matrix) returns (r: Outcome)
    requires IsSquare(W)
    ensures r == AllSources(W)
    ensures r.NegativeCycle? <==> !NoNegativeCycle(W)
    ensures r.NegativeCycle? <==> exists s :: 0 <= s < |W| && SingleSource(W, s).None?
    ensures r.Distances? ==> |r.m| == |W| && IsSquare(r.m)
    ensures r.Distances? ==> forall s :: 0 <= s < |W| ==> SingleSource(W, s) == Some(r.m[s])
  {
    NegativeCycleIffSomeSourceFails(W);
    var pathPairs: Matrix := [];
    for s := 0 to |W|
      invariant |pathPairs| == s
      invariant forall t :: 0 <= t < s ==> pathPairs[t] == AfterRounds(W, t)
      invariant forall t :: 0 <= t < s ==> !Relaxable(W, AfterRounds(W, t))
    {
      var val := ShortestPath(W, s);
      if val.None? {
        return NegativeCycle;
      }
      pathPairs := pathPairs + [val.value];
    }
    assert pathPairs == seq(|W|, s requires 0 <= s < |W| => AfterRounds(W, s));
    return Distances(pathPairs);
  }

  // ---------------------------------------------------------------------------
  // What a round guarantees

  /** Relaxing a row in place: no entry grows, and each relaxed cell (i, b) leaves
      d[b] no larger than the row's starting d[i] + W[i][b]. */
  lemma {:induction false} RelaxRowBound(W: Matrix, d: seq<Ext>, i: nat, j: nat)
    requires IsSquare(W) && |d| == |W| && i < |W| && j <= |W|
    ensures forall v :: 0 <= v < |d| ==> Le(RelaxRow(W, d, i, j)[v], d[v])
    ensures forall b :: 0 <= b < j ==> Le(RelaxRow(W, d, i, j)[b], Add(d[i], W[i][b]))
    decreases j
  {
    if j > 0 {
      RelaxRowBound(W, d, i, j - 1);
      var x := RelaxRow(W, d, i, j - 1);
      var r := RelaxEdge(W, x, i, j - 1);
      forall v | 0 <= v < |d|
        ensures Le(r[v], d[v])
      {
        LeTransitive(r[v], x[v], d[v]);
      }
      forall b | 0 <= b < j
        ensures Le(r[b], Add(d[i], W[i][b]))
      {
        if b < j - 1 {
          LeTransitive(r[b], x[b], Add(d[i], W[i][b]));
        } else {
          AddMonotone(x[i], d[i], W[i][b], W[i][b]);
          LeTransitive(r[b], Add(x[i], W[i][b]), Add(d[i], W[i][b]));
        }
      }
    }
  }

  /** After rows 0..i-1 of a round: no entry grew, and for every edge (u, v) with u < i
      the entry d[v] is no larger than the round's starting d[u] + W[u][v]. */
  lemma {:induction false} PassBound(W: Matrix, d: seq<Ext>, i: nat)
    requires IsSquare(W) && |d| == |W| && i <= |W|
    ensures forall v :: 0 <= v < |d| ==> Le(Pass(W, d, i)[v], d[v])
    ensures forall u, v :: 0 <= u < i && 0 <= v < |d| ==> Le(Pass(W, d, i)[v], Add(d[u], W[u][v]))
    decreases i
  {
    if i > 0 {
      PassBound(W, d, i - 1);
      var x := Pass(W, d, i - 1);
      RelaxRowBound(W, x, i - 1, |W|);
      var r := Pass(W, d, i);
      forall v | 0 <= v < |d|
        ensures Le(r[v], d[v])
      {
        LeTransitive(r[v], x[v], d[v]);
      }
      forall u, v | 0 <= u < i && 0 <= v < |d|
        ensures Le(r[v], Add(d[u], W[u][v]))
      {
        if u < i - 1 {
          LeTransitive(r[v], x[v], Add(d[u], W[u][v]));
        } else {
          AddMonotone(x[u], d[u], W[u][v], W[u][v]);
          LeTransitive(r[v], Add(x[u], W[u][v]), Add(d[u], W[u][v]));
        }
      }
    }
  }

  /** Every entry is +∞ or the weight of a walk from s. */
  ghost predicate Witnessed(W: Matrix, s: nat, d: seq<Ext>)
    requires IsSquare(W) && |d| == |W|
  {
    forall v :: 0 <= v < |d| ==> Attained(W, s, v, d[v])
  }

  /** d[v] is no larger than the weight of any walk from s to v with at most k edges. */
  ghost predicate WalkBounded(W: Matrix, s: nat, d: seq<Ext>, k: nat)
    requires IsSquare(W) && |d| == |W|
  {
    forall p {:trigger WalkFrom(W, p, s)} :: WalkFrom(W, p, s) && |p| <= k + 1 ==> Le(d[p[|p| - 1]], Weight(W, p))
  }

  lemma RelaxEdgeWitnessed(W: Matrix, s: nat, d: seq<Ext>, i: nat, j: nat)
    requires IsSquare(W) && |d| == |W| && i < |W| && j < |W| && Witnessed(W, s, d)
    ensures Witnessed(W, s, RelaxEdge(W, d, i, j))
  {
    if CanRelax(W, d, i, j) {
      assert Attained(W, s, i, d[i]);
      var p: seq<nat> :| WalkFromTo(W, p, s, i) && Weight(W, p) == d[i];
      AppendWeight(W, p, j);
      var r := RelaxEdge(W, d, i, j);
      assert WalkFromTo(W, p + [j], s, j) && Weight(W, p + [j]) == r[j];
      forall v | 0 <= v < |d|
        ensures Attained(W, s, v, r[v])
      {
        if v != j {
          assert Attained(W, s, v, d[v]);
        }
      }
    }
  }

  lemma {:induction false} RelaxRowWitnessed(W: Matrix, s: nat, d: seq<Ext>, i: nat, j: nat)
    requires IsSquare(W) && |d| == |W| && i < |W| && j <= |W| && Witnessed(W, s, d)
    ensures Witnessed(W, s, RelaxRow(W, d, i, j))
    decreases j
  {
    if j > 0 {
      RelaxRowWitnessed(W, s, d, i, j - 1);
      RelaxEdgeWitnessed(W, s, RelaxRow(W, d, i, j - 1), i, j - 1);
    }
  }

  lemma {:induction false} PassWitnessed(W: Matrix, s: nat, d: seq<Ext>, i: nat)
    requires IsSquare(W) && |d| == |W| && i <= |W| && Witnessed(W, s, d)
    ensures Witnessed(W, s, Pass(W, d, i))
    decreases i
  {
    if i > 0 {
      PassWitnessed(W, s, d, i - 1);
      RelaxRowWitnessed(W, s, Pass(W, d, i - 1), i - 1, |W|);
    }
  }

  /** One more round extends the walk bound by one edge. */
  lemma WalkBoundStep(W: Matrix, s: nat, d: seq<Ext>, r: seq<Ext>, k: nat)
    requires IsSquare(W) && |d| == |W| && |r| == |W| && WalkBounded(W, s, d, k)
    requires forall v :: 0 <= v < |W| ==> Le(r[v], d[v])
    requires forall u, v :: 0 <= u < |W| && 0 <= v < |W| ==> Le(r[v], Add(d[u], W[u][v]))
    ensures WalkBounded(W, s, r, k + 1)
  {
    forall p | WalkFrom(W, p, s) && |p| <= k + 2
      ensures Le(r[p[|p| - 1]], Weight(W, p))
    {
      var v := p[|p| - 1];
      if |p| <= k + 1 {
        LeTransitive(r[v], d[v], Weight(W, p));
      } else {
        var q := p[..|p| - 1];
        var u := q[|q| - 1];
        assert WalkFrom(W, q, s) && |q| <= k + 1;
        assert p == q + [v];
        AppendWeight(W, q, v);
        AddMonotone(d[u], Weight(W, q), W[u][v], W[u][v]);
        LeTransitive(r[v], Add(d[u], W[u][v]), Weight(W, p));
      }
    }
  }

  /** Rounds only ever lower entries. */
  lemma {:induction false} RoundsDecrease(W: Matrix, d: seq<Ext>, k: nat)
    requires IsSquare(W) && |d| == |W|
    ensures forall v :: 0 <= v < |W| ==> Le(Rounds(W, d, k)[v], d[v])
    decreases k
  {
    if k > 0 {
      RoundsDecrease(W, d, k - 1);
      var x := Rounds(W, d, k - 1);
      PassBound(W, x, |W|);
      forall v | 0 <= v < |W|
        ensures Le(Rounds(W, d, k)[v], d[v])
      {
        LeTransitive(Rounds(W, d, k)[v], x[v], d[v]);
      }
    }
  }

  /** After any number of rounds from the initial row, each entry is +∞ or the weight
      of a walk from s. */
  lemma {:induction false} RoundsWitnessed(W: Matrix, s: nat, k: nat)
    requires IsSquare(W) && s < |W|
    ensures Witnessed(W, s, Rounds(W, InitialRow(|W|, s), k))
    decreases k
  {
    var init := InitialRow(|W|, s);
    if k == 0 {
      assert WalkFromTo(W, [s], s, s) && Weight(W, [s]) == Fin(0);
      forall v | 0 <= v < |W|
        ensures Attained(W, s, v, init[v])
      {
      }
    } else {
      RoundsWitnessed(W, s, k - 1);
      PassWitnessed(W, s, Rounds(W, init, k - 1), |W|);
    }
  }

  /** After k rounds from the initial row, no entry exceeds the weight of a walk from s
      with at most k edges. */
  lemma {:induction false} RoundsWalkBounded(W: Matrix, s: nat, k: nat)
    requires IsSquare(W) && s < |W|
    ensures WalkBounded(W, s, Rounds(W, InitialRow(|W|, s), k), k)
    decreases k
  {
    var init := InitialRow(|W|, s);
    if k == 0 {
      forall p | WalkFrom(W, p, s) && |p| <= 1
        ensures Le(init[p[|p| - 1]], Weight(W, p))
      {
        assert p == [s];
      }
    } else {
      RoundsWalkBounded(W, s, k - 1);
      var d := Rounds(W, init, k - 1);
      PassBound(W, d, |W|);
      WalkBoundStep(W, s, d, Pass(W, d, |W|), k - 1);
    }
  }

  // ---------------------------------------------------------------------------
  // Correctness

  /** Without a negative cycle the row after the rounds holds shortest distances:
      each entry is +∞ or the weight of a walk from s, and no walk from s is lighter. */
  lemma ShortestDistances(W: Matrix, s: nat)
    requires IsSquare(W) && s < |W| && NoNegativeCycle(W)
    ensures forall v :: 0 <= v < |W| ==> Attained(W, s, v, AfterRounds(W, s)[v])
    ensures forall p {:trigger WalkFrom(W, p, s)} :: WalkFrom(W, p, s) ==> Le(AfterRounds(W, s)[p[|p| - 1]], Weight(W, p))
  {
    var d := AfterRounds(W, s);
    RoundsWitnessed(W, s, |W| - 1);
    RoundsWalkBounded(W, s, |W| - 1);
    forall p | WalkFrom(W, p, s)
      ensures Le(d[p[|p| - 1]], Weight(W, p))
    {
      var q := Shorten(W, p);
      assert WalkFrom(W, q, s) && |q| <= (|W| - 1) + 1;
      LeTransitive(d[p[|p| - 1]], Weight(W, q), Weight(W, p));
    }
  }

  /** Without a negative cycle the extra pass finds nothing to relax. */
  lemma NothingLeftToRelax(W: Matrix, s: nat)
    requires IsSquare(W) && s < |W| && NoNegativeCycle(W)
    ensures !Relaxable(W, AfterRounds(W, s))
  {
    var d := AfterRounds(W, s);
    ShortestDistances(W, s);
    forall i, j | 0 <= i < |W| && 0 <= j < |W|
      ensures !CanRelax(W, d, i, j)
    {
      if d[i].Fin? {
        assert Attained(W, s, i, d[i]);
        var p: seq<nat> :| WalkFromTo(W, p, s, i) && Weight(W, p) == d[i];
        AppendWeight(W, p, j);
        assert WalkFrom(W, p + [j], s) && (p + [j])[|p|] == j;
      }
    }
  }

  /** When the extra pass finds nothing to relax, d along a walk grows by at most
      the walk's weight. */
  lemma {:induction false} StableAlongWalk(W: Matrix, d: seq<Ext>, p: seq<nat>)
    requires IsSquare(W) && |d| == |W| && IsWalk(W, p) && !Relaxable(W, d) && d[p[0]].Fin?
    ensures Le(d[p[|p| - 1]], Add(d[p[0]], Weight(W, p)))
    decreases |p|
  {
    if |p| > 1 {
      var q := p[..|p| - 1];
      StableAlongWalk(W, d, q);
      var u, v := q[|q| - 1], p[|p| - 1];
      assert !CanRelax(W, d, u, v);
      AddMonotone(d[u], Add(d[p[0]], Weight(W, q)), W[u][v], W[u][v]);
      AddAssociative(d[p[0]], Weight(W, q), W[u][v]);
    }
  }

  /** A negative cycle is caught by the run from any of its vertices. */
  lemma NegativeCycleDetected(W: Matrix, c: seq<nat>)
    requires IsSquare(W) && IsNegativeCycle(W, c)
    ensures Relaxable(W, AfterRounds(W, c[0]))
  {
    var d := AfterRounds(W, c[0]);
    RoundsDecrease(W, InitialRow(|W|, c[0]), |W| - 1);
    assert Le(d[c[0]], Fin(0));
    if !Relaxable(W, d) {
      StableAlongWalk(W, d, c);
      assert false;
    }
  }

  /** The all-sources run reports a negative cycle exactly when the graph has one. */
  lemma NegativeCycleIffSomeSourceFails(W: Matrix)
    requires IsSquare(W)
    ensures AllSources(W).NegativeCycle? <==> !NoNegativeCycle(W)
  {
    if NoNegativeCycle(W) {
      forall s | 0 <= s < |W|
        ensures !Relaxable(W, AfterRounds(W, s))
      {
        NothingLeftToRelax(W, s);
      }
    } else {
      var c :| ClosedWalk(W, c) && !Le(Fin(0), Weight(W, c));
      LeTotal(Fin(0), Weight(W, c));
      NegativeCycleDetected(W, c);
    }
  }
}
