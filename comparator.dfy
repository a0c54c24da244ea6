/** The comparison of the two solvers' results. A result is the literal False (a
    negative cycle) or a list of rows; False and the empty list are both falsy. */
module Comparison {
  import opened Extended
  import opened Outcomes

  /** Falsy in Python: False, or an empty list of rows. */
  predicate Falsy(o: Outcome) {
    o.NegativeCycle? || |o.m| == 0
  }

  /** What a solver returns: False or a square matrix. */
  predicate WellShaped(o: Outcome) {
    o.NegativeCycle? || IsSquare(o.m)
  }

  /** The arguments on which the comparison as written takes len() of False: one of
      them is False and the other a non-empty matrix. */
  predicate Mixed(a: Outcome, b: Outcome) {
    (a.NegativeCycle? && !Falsy(b)) || (b.NegativeCycle? && !Falsy(a))
  }

  /** The intended meaning: both falsy, or the same rows. */
  predicate Agree(a: Outcome, b: Outcome) {
    (Falsy(a) && Falsy(b)) || (a.Distances? && b.Distances? && a.m == b.m)
  }

  lemma CellsEqual(a: Matrix, b: Matrix)
    requires IsSquare(a) && IsSquare(b) && |a| == |b|
    requires forall i, j :: 0 <= i < |a| && 0 <= j < |a| ==> a[i][j] == b[i][j]
    ensures a == b
  {
    assert forall i :: 0 <= i < |a| ==> a[i] == b[i];
  }

  /** The comparison as the program writes it, branch by branch: both falsy is a
      match; then the lengths of the first argument and of the second are taken, in
      that order, and a False argument raises a TypeError there; then the row counts
      and the first rows' lengths are compared, and finally the cells. */
  function MatrixEqualityAsWritten(a: Outcome, b: Outcome): (r: Result<bool>)
    requires WellShaped(a) && WellShaped(b)
    ensures r.Err? <==> Mixed(a, b)
    ensures r.Err? ==> r.error == TypeError
    ensures r.Ok? ==> r.value == Agree(a, b)
  {
    if Falsy(a) && Falsy(b) then Ok(true)
    else if a.NegativeCycle? then Err(TypeError)
    else if |a.m| == 0 then Ok(false)
    else if b.NegativeCycle? then Err(TypeError)
    else if |b.m| == 0 || |a.m| != |b.m| then Ok(false)
    else if |a.m[0]| != |b.m[0]| then Ok(false)
    else
      var same := forall i, j :: 0 <= i < |a.m| && 0 <= j < |b.m| ==> a.m[i][j] == b.m[i][j];
      if same then CellsEqual(a.m, b.m); Ok(true) else Ok(false)
  }

  /** The comparison with the crash removed: a False or empty argument against a
      non-empty matrix is a mismatch. Otherwise it takes the same steps. */
  method MatrixEquality(a: Outcome, b: Outcome) returns (equal: bool)
    requires WellShaped(a) && WellShaped(b)
    ensures equal == Agree(a, b)
    ensures !Mixed(a, b) ==> MatrixEqualityAsWritten(a, b) == Ok(equal)
  {
    if Falsy(a) && Falsy(b) {
      return true;
    }
    if Falsy(a) || Falsy(b) {
      return false;
    }
    var x, y := a.m, b.m;
    if |x| != |y| || |x[0]| != |y[0]| {
      return false;
    }
    for i := 0 to |x|
      invariant forall s, t :: 0 <= s < i && 0 <= t < |y| ==> x[s][t] == y[s][t]
    {
      for j := 0 to |y|
        invariant forall t :: 0 <= t < j ==> x[i][t] == y[i][t]
      {
        if x[i][j] != y[i][j] {
          return false;
        }
      }
    }
    CellsEqual(x, y);
    return true;
  }

  /** Wherever neither order raises, the comparison as written is symmetric. */
  lemma AsWrittenSymmetric(a: Outcome, b: Outcome)
    requires WellShaped(a) && WellShaped(b)
    ensures MatrixEqualityAsWritten(a, b).Err? <==> MatrixEqualityAsWritten(b, a).Err?
    ensures MatrixEqualityAsWritten(a, b).Ok? ==> MatrixEqualityAsWritten(a, b) == MatrixEqualityAsWritten(b, a)
  {
  }
}
