/** Row reduction of a matrix of rationals stays within the rationals. */
module RationalReduction {
  import opened LinearAlgebra
  import opened Rationals
  import opened RowReduction

  lemma AddScaledRational(a: Vec, f: real, b: Vec)
    requires |a| == |b| && VecRational(a) && VecRational(b) && IsRational(f)
    ensures VecRational(AddScaled(a, f, b))
  {
    forall i | 0 <= i < |a|
      ensures IsRational(AddScaled(a, f, b)[i])
    {
      RationalProduct(f, b[i]);
      RationalSum(a[i], Times(f, b[i]));
    }
  }

  lemma ScaleVecRational(f: real, a: Vec)
    requires VecRational(a) && IsRational(f)
    ensures VecRational(ScaleVec(f, a))
  {
    forall i | 0 <= i < |a|
      ensures IsRational(ScaleVec(f, a)[i])
    {
      RationalProduct(f, a[i]);
    }
  }

  lemma {:induction false} EliminateRational(m: Mat, n: nat, r: nat, c: nat, k: nat)
    requires IsMat(m, n) && MatRational(m) && r < |m| && c < n && k <= |m|
    ensures MatRational(Eliminate(m, n, r, c, k))
  {
    if k > 0 {
      EliminateRational(m, n, r, c, k - 1);
      var e := Eliminate(m, n, r, c, k - 1);
      RationalMinus(e[k - 1][c]);
      AddScaledRational(e[k - 1], -e[k - 1][c], e[r]);
    }
  }

  lemma PivotStepRational(m: Mat, n: nat, piv: nat, r: nat, c: nat)
    requires IsMat(m, n) && MatRational(m)
    requires r < |m| && piv < |m| && c < n && m[piv][c] != 0.0
    ensures MatRational(PivotStep(m, n, piv, r, c))
  {
    RationalInverse(m[piv][c]);
    ScaleVecRational(1.0 / m[piv][c], m[piv]);
    EliminateRational(Normalise(m, n, piv, r, c), n, r, c, |m|);
  }

  lemma {:induction false} RrefFromRational(e: Mat, n: nat, limit: nat, pivots: seq<nat>, c: nat)
    requires IsMat(e, n) && MatRational(e) && c <= limit <= n && |pivots| <= |e|
    ensures MatRational(RrefFrom(e, n, limit, pivots, c).0)
    decreases limit - c
  {
    if c < limit && |pivots| < |e| {
      RrefFromStep(e, n, limit, pivots, c);
      var piv := FindPivot(e, n, c, |pivots|);
      if piv == |e| {
        RrefFromRational(e, n, limit, pivots, c + 1);
      } else {
        PivotStepRational(e, n, piv, |pivots|, c);
        RrefFromRational(PivotStep(e, n, piv, |pivots|, c), n, limit, pivots + [c], c + 1);
      }
    }
  }

  /** The reduced form of a rational matrix is rational. */
  lemma RrefRational(m: Mat, n: nat, limit: nat)
    requires IsMat(m, n) && MatRational(m) && limit <= n
    ensures MatRational(Rref(m, n, limit).0)
  {
    RrefFromRational(m, n, limit, [], 0);
  }
}
