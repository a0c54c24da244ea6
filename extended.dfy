/** Distances are integers extended with the "no edge" / "unreachable" sentinel +∞.
    Adding anything to +∞ gives +∞, and +∞ is larger than every integer. */
module Extended {

  datatype Ext = Fin(v: int) | Inf

  /** A weight matrix or a distance matrix, row i holding the values out of vertex i. */
  type Matrix = seq<seq<Ext>>

  /** Saturating addition: a sum involving +∞ stays +∞. */
  function Add(x: Ext, y: Ext): (r: Ext)
    ensures r.Fin? <==> x.Fin? && y.Fin?
    ensures r.Fin? ==> r.v == x.v + y.v
  {
    if x.Fin? && y.Fin? then Fin(x.v + y.v) else Inf
  }

  /** x < y, with +∞ < +∞ false (as for a float infinity). */
  predicate Lt(x: Ext, y: Ext) {
    x.Fin? && (y.Inf? || x.v < y.v)
  }

  /** x <= y. */
  predicate Le(x: Ext, y: Ext) {
    y.Inf? || (x.Fin? && x.v <= y.v)
  }

  /** The built-in min(prev, take): the second argument only when strictly smaller. */
  function Min(prev: Ext, take: Ext): (r: Ext)
    ensures Le(r, prev) && Le(r, take)
    ensures r == prev || r == take
  {
    if Lt(take, prev) then take else prev
  }

  predicate IsSquare(m: Matrix) {
    forall i :: 0 <= i < |m| ==> |m[i]| == |m|
  }

  /** Entry-wise "no larger than". */
  predicate MatrixLe(a: Matrix, b: Matrix)
    requires IsSquare(a) && IsSquare(b) && |a| == |b|
  {
    forall i, j :: 0 <= i < |a| && 0 <= j < |a| ==> Le(a[i][j], b[i][j])
  }

  lemma LeTotal(x: Ext, y: Ext)
    ensures Le(x, y) || Le(y, x)
    ensures Lt(x, y) <==> !Le(y, x)
  {
  }

  lemma LeAntisymmetric(x: Ext, y: Ext)
    requires Le(x, y) && Le(y, x)
    ensures x == y
  {
  }

  lemma LeTransitive(x: Ext, y: Ext, z: Ext)
    requires Le(x, y) && Le(y, z)
    ensures Le(x, z)
  {
  }

  lemma AddMonotone(a: Ext, b: Ext, c: Ext, d: Ext)
    requires Le(a, b) && Le(c, d)
    ensures Le(Add(a, c), Add(b, d))
  {
  }

  lemma AddAssociative(a: Ext, b: Ext, c: Ext)
    ensures Add(Add(a, b), c) == Add(a, Add(b, c))
  {
  }

  /** Inserting a non-negative middle term never makes a sum smaller. */
  lemma AddNonNegativeMiddle(a: Ext, c: Ext, b: Ext)
    requires Le(Fin(0), c)
    ensures Le(Add(a, b), Add(Add(a, c), b))
  {
  }
}
