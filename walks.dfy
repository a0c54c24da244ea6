/** Walks in the graph given by a square weight matrix W, their weights, and the
    facts about them that both solvers rely on: joining and splitting walks,
    the pigeonhole bound on simple paths, and the removal of cycles from a walk
    when no cycle is negative. */
module Walks {
  import opened Extended

  /** A walk is a non-empty sequence of vertices of W (edges may be +∞). */
  predicate IsWalk(W: Matrix, p: seq<nat>) {
    |p| >= 1 && forall t :: 0 <= t < |p| ==> p[t] < |W|
  }

  predicate WalkFrom(W: Matrix, p: seq<nat>, s: nat) {
    IsWalk(W, p) && p[0] == s
  }

  predicate WalkFromTo(W: Matrix, p: seq<nat>, s: nat, t: nat) {
    IsWalk(W, p) && p[0] == s && p[|p| - 1] == t
  }

  /** A closed walk with at least one edge: a cycle, possibly repeating vertices. */
  predicate ClosedWalk(W: Matrix, c: seq<nat>) {
    IsWalk(W, c) && |c| >= 2 && c[0] == c[|c| - 1]
  }

  /** The weight of a walk: the saturating sum of its edges, 0 for a single vertex. */
  function Weight(W: Matrix, p: seq<nat>): Ext
    requires IsSquare(W) && IsWalk(W, p)
    decreases |p|
  {
    if |p| == 1 then Fin(0)
    else Add(Weight(W, p[..|p| - 1]), W[p[|p| - 2]][p[|p| - 1]])
  }

  /** No vertex repeats: a simple path. */
  predicate Distinct(p: seq<nat>) {
    forall a, b :: 0 <= a < b < |p| ==> p[a] != p[b]
  }

  /** Every inner vertex of p occurs nowhere else in p; the end points may coincide,
      so a simple cycle qualifies. */
  predicate InnerDistinct(p: seq<nat>) {
    forall a, b :: 0 <= a < |p| && 0 < b < |p| - 1 && a != b ==> p[a] != p[b]
  }

  /** Every closed walk (a cycle, self-loops included) weighs at least 0. */
  ghost predicate NoNegativeCycle(W: Matrix)
    requires IsSquare(W)
  {
    forall c {:trigger ClosedWalk(W, c)} :: ClosedWalk(W, c) ==> Le(Fin(0), Weight(W, c))
  }

  /** c is a closed walk of negative weight. */
  ghost predicate IsNegativeCycle(W: Matrix, c: seq<nat>)
    requires IsSquare(W)
  {
    ClosedWalk(W, c) && Lt(Weight(W, c), Fin(0))
  }

  /** x is +∞ or the weight of some walk from s to t. */
  ghost predicate Attained(W: Matrix, s: nat, t: nat, x: Ext)
    requires IsSquare(W)
  {
    x.Inf? || exists p :: WalkFromTo(W, p, s, t) && Weight(W, p) == x
  }

  /** Extending a walk by one edge adds that edge's weight. */
  lemma AppendWeight(W: Matrix, p: seq<nat>, v: nat)
    requires IsSquare(W) && IsWalk(W, p) && v < |W|
    ensures IsWalk(W, p + [v])
    ensures Weight(W, p + [v]) == Add(Weight(W, p), W[p[|p| - 1]][v])
  {
    var r := p + [v];
    assert r[..|r| - 1] == p;
    assert r[|r| - 2] == p[|p| - 1] && r[|r| - 1] == v;
  }

  /** Joining a walk ending at x with a walk starting at x adds their weights. */
  lemma {:induction false} JoinWeight(W: Matrix, p: seq<nat>, q: seq<nat>)
    requires IsSquare(W) && IsWalk(W, p) && IsWalk(W, q) && p[|p| - 1] == q[0]
    ensures IsWalk(W, p + q[1..])
    ensures Weight(W, p + q[1..]) == Add(Weight(W, p), Weight(W, q))
    decreases |q|
  {
    if |q| == 1 {
      assert p + q[1..] == p;
    } else {
      var q' := q[..|q| - 1];
      JoinWeight(W, p, q');
      var j := p + q[1..];
      assert j[..|j| - 1] == p + q'[1..];
      assert j[|j| - 1] == q[|q| - 1];
      assert j[|j| - 2] == q[|q| - 2];
      AddAssociative(Weight(W, p), Weight(W, q'), W[q[|q| - 2]][q[|q| - 1]]);
    }
  }

  /** The walk p followed by q, where q starts at p's last vertex. */
  lemma Join(W: Matrix, p: seq<nat>, q: seq<nat>) returns (r: seq<nat>)
    requires IsSquare(W) && IsWalk(W, p) && IsWalk(W, q) && p[|p| - 1] == q[0]
    ensures r == p + q[1..]
    ensures WalkFromTo(W, r, p[0], q[|q| - 1])
    ensures Weight(W, r) == Add(Weight(W, p), Weight(W, q))
  {
    JoinWeight(W, p, q);
    r := p + q[1..];
    assert r[0] == p[0];
    assert r[|r| - 1] == q[|q| - 1];
  }

  /** Cutting a walk at position m splits its weight. */
  lemma SplitWeight(W: Matrix, p: seq<nat>, m: nat)
    requires IsSquare(W) && IsWalk(W, p) && m < |p|
    ensures IsWalk(W, p[..m + 1]) && IsWalk(W, p[m..])
    ensures Weight(W, p) == Add(Weight(W, p[..m + 1]), Weight(W, p[m..]))
  {
    assert p[..m + 1] + p[m..][1..] == p;
    JoinWeight(W, p[..m + 1], p[m..]);
  }

  /** Pigeonhole: a simple path over the vertices 0..n-1 has at most n vertices. */
  lemma {:induction false} DistinctLength(q: seq<nat>, n: nat)
    requires Distinct(q)
    requires forall t :: 0 <= t < |q| ==> q[t] < n
    ensures |q| <= n
    decreases n
  {
    if |q| == 0 {
    } else if t :| 0 <= t < |q| && q[t] == n - 1 {
      var r := q[..t] + q[t + 1..];
      assert forall a :: 0 <= a < |r| ==> r[a] == if a < t then q[a] else q[a + 1];
      DistinctLength(r, n - 1);
    } else {
      assert q[0] < n;
      DistinctLength(q, n - 1);
    }
  }

  /** Cutting the closed sub-walk p[i..j] out of p, where p[i] == p[j]: the rest
      keeps p's end points; with F and B the weights before i and after j, p weighs
      F + loop + B and the rest F + B. */
  lemma CutLoop(W: Matrix, p: seq<nat>, i: nat, j: nat) returns (rest: seq<nat>, loop: seq<nat>, F: Ext, B: Ext)
    requires IsSquare(W) && IsWalk(W, p) && i < j < |p| && p[i] == p[j]
    ensures ClosedWalk(W, loop) && |loop| == j - i + 1 && loop[0] == p[i]
    ensures WalkFromTo(W, rest, p[0], p[|p| - 1]) && |rest| == |p| - (j - i)
    ensures Weight(W, p) == Add(Add(F, Weight(W, loop)), B)
    ensures Weight(W, rest) == Add(F, B)
  {
    var front, back := p[..i + 1], p[j..];
    loop := p[i..j + 1];
    SplitWeight(W, p, j);
    SplitWeight(W, p[..j + 1], i);
    assert p[..j + 1][..i + 1] == front && p[..j + 1][i..] == loop;
    rest := Join(W, front, back);
    F, B := Weight(W, front), Weight(W, back);
    AddAssociative(F, Weight(W, loop), B);
  }

  /** When no cycle is negative, every walk can be shortened to a simple path with
      the same end points and no larger weight. */
  lemma {:induction false} Shorten(W: Matrix, p: seq<nat>) returns (q: seq<nat>)
    requires IsSquare(W) && IsWalk(W, p) && NoNegativeCycle(W)
    ensures WalkFromTo(W, q, p[0], p[|p| - 1]) && Distinct(q)
    ensures |q| <= |W|
    ensures Le(Weight(W, q), Weight(W, p))
    decreases |p|
  {
    if Distinct(p) {
      q := p;
    } else {
      var i, j :| 0 <= i < j < |p| && p[i] == p[j];
      var rest, loop, F, B := CutLoop(W, p, i, j);
      AddNonNegativeMiddle(F, Weight(W, loop), B);
      q := Shorten(W, rest);
      LeTransitive(Weight(W, q), Weight(W, rest), Weight(W, p));
    }
    DistinctLength(q, |W|);
  }

  /** Every negative cycle contains a simple negative cycle: a repeated inner vertex
      splits a closed walk into two shorter closed walks, one of them negative. */
  lemma {:induction false} SimpleNegativeCycle(W: Matrix, c: seq<nat>) returns (d: seq<nat>)
    requires IsSquare(W) && IsNegativeCycle(W, c)
    ensures IsNegativeCycle(W, d) && InnerDistinct(d)
    decreases |c|
  {
    if InnerDistinct(c) {
      d := c;
    } else {
      var a, b :| 0 <= a < |c| && 0 < b < |c| - 1 && a != b && c[a] == c[b];
      var i, j := if a < b then a else b, if a < b then b else a;
      var rest, loop, F, B := CutLoop(W, c, i, j);
      assert ClosedWalk(W, rest);
      if Lt(Weight(W, loop), Fin(0)) {
        d := SimpleNegativeCycle(W, loop);
      } else {
        AddNonNegativeMiddle(F, Weight(W, loop), B);
        d := SimpleNegativeCycle(W, rest);
      }
    }
  }

  /** With no negative edge weight no walk is negative, so no cycle is. */
  lemma {:induction false} NonNegativeWalk(W: Matrix, p: seq<nat>)
    requires IsSquare(W) && IsWalk(W, p)
    requires forall i, j :: 0 <= i < |W| && 0 <= j < |W| ==> Le(Fin(0), W[i][j])
    ensures Le(Fin(0), Weight(W, p))
    decreases |p|
  {
    if |p| > 1 {
      NonNegativeWalk(W, p[..|p| - 1]);
    }
  }

  lemma NonNegativeEdges(W: Matrix)
    requires IsSquare(W)
    requires forall i, j :: 0 <= i < |W| && 0 <= j < |W| ==> Le(Fin(0), W[i][j])
    ensures NoNegativeCycle(W)
  {
    forall c | ClosedWalk(W, c)
      ensures Le(Fin(0), Weight(W, c))
    {
      NonNegativeWalk(W, c);
    }
  }

  /** When every edge is absent, every walk with an edge weighs +∞. */
  lemma NoEdgesNoWeight(W: Matrix, p: seq<nat>)
    requires IsSquare(W) && IsWalk(W, p) && |p| >= 2
    requires forall i, j :: 0 <= i < |W| && 0 <= j < |W| ==> W[i][j].Inf?
    ensures Weight(W, p).Inf?
  {
  }
}
