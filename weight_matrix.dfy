/** The weight matrix the reader builds from the vertex count of the header line and
    the edge lines, each an integer triple (source, sink, weight) numbered from 1. */
module WeightMatrix {
  import opened Extended
  import opened Outcomes

  datatype Triple = Triple(source: nat, sink: nat, weight: int)

  /** The zero-based index a vertex number selects in a list of n entries: number x
      is index x - 1, and number 0 is index -1, which counts from the end. */
  function Slot(x: nat, n: nat): (r: int)
    ensures 1 <= x <= n ==> 0 <= r < n && r + 1 == x
    ensures x == 0 && n >= 1 ==> r == n - 1
    ensures x <= n && n >= 1 ==> 0 <= r < n
  {
    if x >= 1 then x - 1 else n - 1
  }

  /** Triple e writes cell (i, j) of the n×n matrix. */
  predicate Writes(e: Triple, n: nat, i: nat, j: nat) {
    Slot(e.source, n) == i && Slot(e.sink, n) == j
  }

  /** The range test the reader applies: a vertex number above n. */
  predicate OutOfRange(e: Triple, n: nat) {
    e.source > n || e.sink > n
  }

  /** A triple that stops the reader: out of range, or (with no vertices at all) any
      triple, whose index lands in an empty list. */
  predicate Rejected(e: Triple, n: nat) {
    OutOfRange(e, n) || n == 0
  }

  /** The value cell (i, j) holds after the triples are written in order. */
  function LastWrite(triples: seq<Triple>, n: nat, i: nat, j: nat): Ext
    decreases |triples|
  {
    if |triples| == 0 then Inf
    else if Writes(triples[|triples| - 1], n, i, j) then Fin(triples[|triples| - 1].weight)
    else LastWrite(triples[..|triples| - 1], n, i, j)
  }

  /** The last triple naming a cell decides its weight. */
  lemma {:induction false} LastWriteWins(triples: seq<Triple>, n: nat, i: nat, j: nat, t: nat)
    requires t < |triples| && Writes(triples[t], n, i, j)
    requires forall u :: t < u < |triples| ==> !Writes(triples[u], n, i, j)
    ensures LastWrite(triples, n, i, j) == Fin(triples[t].weight)
    decreases |triples|
  {
    if t < |triples| - 1 {
      var front := triples[..|triples| - 1];
      assert forall u :: t < u < |front| ==> front[u] == triples[u];
      LastWriteWins(front, n, i, j, t);
    }
  }

  /** A cell no triple names holds +∞. */
  lemma {:induction false} UnwrittenIsInf(triples: seq<Triple>, n: nat, i: nat, j: nat)
    requires forall u :: 0 <= u < |triples| ==> !Writes(triples[u], n, i, j)
    ensures LastWrite(triples, n, i, j) == Inf
    decreases |triples|
  {
    if |triples| > 0 {
      var front := triples[..|triples| - 1];
      assert forall u :: 0 <= u < |front| ==> front[u] == triples[u];
      UnwrittenIsInf(front, n, i, j);
    }
  }

  /** An n×n matrix of +∞, then one indexed assignment per triple in order (the last
      write wins); the first rejected triple stops the reader with its error. */
  method BuildWeights(n: nat, triples: seq<Triple>) returns (r: Result<Matrix>)
    ensures r.Err? <==> exists t :: 0 <= t < |triples| && Rejected(triples[t], n)
    ensures r.Err? ==> exists t :: 0 <= t < |triples| && Rejected(triples[t], n) &&
                         (forall u :: 0 <= u < t ==> !Rejected(triples[u], n)) &&
                         r.error == (if OutOfRange(triples[t], n) then VertexOutOfRange else IndexError)
    ensures r.Ok? ==> |r.value| == n && IsSquare(r.value)
    ensures r.Ok? ==> forall i, j :: 0 <= i < n && 0 <= j < n ==> r.value[i][j] == LastWrite(triples, n, i, j)
    ensures r.Ok? ==> r.value == Graph(n, triples)
  {
    var edges: Matrix := [];
    var i := 0;
    while i < n
      invariant i <= n && |edges| == i
      invariant forall a :: 0 <= a < i ==> |edges[a]| == n
      invariant forall a, b :: 0 <= a < i && 0 <= b < n ==> edges[a][b] == Inf
    {
      var row: seq<Ext> := [];
      var j := 0;
      while j < n
        invariant j <= n && |row| == j
        invariant forall b :: 0 <= b < j ==> row[b] == Inf
      {
        row := row + [Inf];
        j := j + 1;
      }
      edges := edges + [row];
      i := i + 1;
    }
    var t := 0;
    while t < |triples|
      invariant t <= |triples|
      invariant forall u :: 0 <= u < t ==> !Rejected(triples[u], n)
      invariant |edges| == n && IsSquare(edges)
      invariant forall a, b :: 0 <= a < n && 0 <= b < n ==> edges[a][b] == LastWrite(triples[..t], n, a, b)
    {
      var e := triples[t];
      if OutOfRange(e, n) {
        return Err(VertexOutOfRange);
      }
      if n == 0 {
        return Err(IndexError);
      }
      var a, b := Slot(e.source, n), Slot(e.sink, n);
      edges := edges[a := edges[a][b := Fin(e.weight)]];
      assert triples[..t + 1][..t] == triples[..t];
      t := t + 1;
    }
    assert triples[..t] == triples;
    ghost var G := Graph(n, triples);
    assert forall a :: 0 <= a < n ==> edges[a] == G[a];
    return Ok(edges);
  }

  /** The weight matrix a successful read produces. */
  function Graph(n: nat, triples: seq<Triple>): (W: Matrix)
    ensures |W| == n && IsSquare(W)
    ensures forall i, j :: 0 <= i < n && 0 <= j < n ==> W[i][j] == LastWrite(triples, n, i, j)
  {
    seq(n, i requires 0 <= i < n => seq(n, j requires 0 <= j < n => LastWrite(triples, n, i, j)))
  }
}
