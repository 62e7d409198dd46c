/** Null-space matrix and weights of the samples. */
module InsTraining {
  import opened LinearAlgebra
  import opened RowReduction
  import opened LinearSystems
  import opened NullSpaces
  import opened Rationals
  import opened RationalMatrix
  import opened InsSamples

  /** What was computed from the samples: null-space rows, integer weights and their common factor. */
  datatype Weights = Weights(nullMat: Matrix, pSol: Matrix, fac: int)

  /** Nothing computed yet. */
  const UNTRAINED := Weights(EMPTY, EMPTY, 1)

  /**
   The null-space matrix decides what the samples determine; the weights divided by the factor are
   the one explanation of the samples that is orthogonal to the null space.
   */
  ghost predicate IsTraining(width: nat, e: Encoder, t: Weights, w: Vec)
    requires e.Shaped(width)
  {
    && t.nullMat.Valid() && (t.nullMat.rows != [] ==> t.nullMat.cols == |e.keys| + width) && SetOrEmpty(t.nullMat)
    && IsNullMatrix(e.Rows(), |e.keys| + width, t.nullMat.rows)
    && e.Explains(width, w) && InKernel(t.nullMat.rows, w)
    && t.pSol.Valid() && t.pSol.cols == 1 && IsScaledColumn(t.pSol.rows, t.fac, w) && IsLeastFactor(t.fac, w)
  }

  /** The factor divides every number that makes all entries integers. */
  ghost predicate IsLeastFactor(fac: int, w: Vec) {
    forall k {:trigger ClearsRow(k, w)} :: ClearsRow(k, w) ==> Divides(fac, k)
  }

  /** A matrix of rationals without rows is the unset one. */
  ghost predicate SetOrEmpty(nm: Matrix) {
    nm.Rational() && (nm.rows == [] ==> nm == EMPTY)
  }

  /** The column is `fac` times `w`, and all its entries are integers. */
  ghost predicate IsScaledColumn(col: Mat, fac: int, w: Vec)
    requires IsMat(col, 1)
  {
    && fac >= 1 && |col| == |w|
    && Column(col, 0) == ScaleVec(fac as real, w)
    && forall i :: 0 <= i < |col| ==> IsInteger(col[i][0])
  }

  /** `z` explains the samples and is orthogonal to the null space. */
  ghost predicate ExplainsOrthogonally(width: nat, e: Encoder, t: Weights, z: Vec) {
    e.Shaped(width) && e.Explains(width, z) && IsMat(t.nullMat.rows, |z|) && InKernel(t.nullMat.rows, z)
  }

  ghost predicate Trained(width: nat, e: Encoder, t: Weights, w: Vec) {
    e.Shaped(width) && IsTraining(width, e, t, w)
  }

  // ---------- Computing the weights ----------

  lemma SampleRational(keys: seq<string>, vals: seq<int>, modi: seq<string>)
    ensures VecRational(SampleVec(keys, vals, modi))
  {
    IntegerIsRational(0);
    IntegerIsRational(1);
    forall i | 0 <= i < |vals|
      ensures IsRational(RealVec(vals)[i])
    {
      IntegerIsRational(vals[i]);
    }
  }

  lemma RowsRational(e: Encoder)
    ensures MatRational(e.Rows())
  {
    forall i | 0 <= i < |e.repos|
      ensures VecRational(e.Rows()[i])
    {
      SampleRational(e.keys, e.repos[i].vals, e.repos[i].modi);
    }
  }

  lemma RhsRational(k: nat, e: Encoder, rhs: Mat)
    requires IsMat(rhs, 1) && |rhs| == k + |e.repos| && Column(rhs, 0) == Zeros(k) + e.Codes()
    ensures MatRational(rhs)
  {
    IntegerIsRational(0);
    forall i | 0 <= i < |rhs|
      ensures VecRational(rhs[i])
    {
      assert rhs[i][0] == Column(rhs, 0)[i];
      if i >= k {
        IntegerIsRational(e.repos[i - k].code);
      }
    }
  }

  /** The system that pins the weights down: null-space rows with zeros over sample rows with codes. */
  method StackSystem(nm: Matrix, lhs: Matrix, rhs: Matrix) returns (l: Matrix, r: Matrix)
    requires nm.Valid() && lhs.Valid() && rhs.Valid() && rhs.cols == 1 && |lhs.rows| == |rhs.rows|
    requires lhs.rows != [] && (nm.rows != [] ==> nm.cols == lhs.cols)
    ensures l == Matrix(lhs.cols, nm.rows + lhs.rows) && l.Valid()
    ensures r.Valid() && r.cols == 1 && |r.rows| == |l.rows|
    ensures Column(r.rows, 0) == Zeros(|nm.rows|) + Column(rhs.rows, 0)
  {
    l, r := lhs, rhs;
    if |nm.rows| != 0 {
      var top := ColumnVector(Zeros(|nm.rows|));
      var sl := VStack(nm, lhs);
      var sr := VStack(top, rhs);
      l, r := sl.value, sr.value;
      assert Column(r.rows, 0) == Column(top.rows, 0) + Column(rhs.rows, 0);
    } else {
      assert nm.rows + lhs.rows == lhs.rows;
      assert Zeros(0) + Column(rhs.rows, 0) == Column(rhs.rows, 0);
    }
  }

  lemma ScalingGivesColumn(raw: Matrix, scaled: Matrix, fac: int)
    requires raw.Valid() && scaled.Valid() && raw.cols == scaled.cols == 1
    requires IsIntegerScaling(raw.rows, scaled.rows, fac)
    ensures IsScaledColumn(scaled.rows, fac, Column(raw.rows, 0))
  {
    forall i | 0 <= i < |scaled.rows|
      ensures IsInteger(scaled.rows[i][0])
      ensures scaled.rows[i][0] == Times(fac as real, Column(raw.rows, 0)[i])
    {
      assert ClearsRow(fac, raw.rows[i]);
      assert Clears(fac, raw.rows[i][0]);
      TimesCommutes(raw.rows[i][0], fac as real);
    }
  }

  lemma LeastFactor(raw: Matrix, fac: int)
    requires raw.Valid() && raw.cols == 1 && IsDenomLcm(fac, raw.rows, |raw.rows|)
    ensures IsLeastFactor(fac, Column(raw.rows, 0))
  {
    var w := Column(raw.rows, 0);
    forall k | ClearsRow(k, w)
      ensures Divides(fac, k)
    {
      forall i | 0 <= i < |raw.rows|
        ensures ClearsRow(k, raw.rows[i])
      {
        assert Clears(k, w[i]);
      }
      assert ClearsRowsTo(k, raw.rows, |raw.rows|);
    }
  }

  lemma IndependentRows(width: nat, e: Encoder)
    requires e.Shaped(width) && e.RowsIndependent(width)
    ensures IsMat(e.Rows(), |e.keys| + width) && Independent(e.Rows(), |e.keys| + width)
  {
  }

  /** Solves a system whose every row gets a pivot: it never fails. */
  method SolvePivotal(l: Matrix, r: Matrix) returns (raw: Matrix)
    requires l.Valid() && r.Valid() && r.cols == 1 && |r.rows| == |l.rows| && l.Rational() && r.Rational()
    requires |Rref(RowJoin(l.rows, r.rows), l.cols + 1, l.cols).1| == |l.rows|
    ensures raw.Valid() && raw.cols == 1 && |raw.rows| == l.cols && raw.Rational()
    ensures Fits(l.rows, Column(r.rows, 0), Column(raw.rows, 0))
  {
    var sol := Solve(l, r);
    assert sol.Success?;
    raw := sol.value;
    assert SolvesColumn(l, r, raw, 0);
  }

  /** The stacked system of independent rows and their null space. */
  ghost predicate IsStackable(a: Matrix, nm: Matrix) {
    && a.Valid() && nm.Valid() && (nm.rows != [] ==> nm.cols == a.cols)
    && Independent(a.rows, a.cols) && IsNullMatrix(a.rows, a.cols, nm.rows)
  }

  lemma StackableSolvable(a: Matrix, nm: Matrix, l: Matrix, r: Matrix)
    requires IsStackable(a, nm) && |nm.rows| + |Rref(a.rows, a.cols, a.cols).1| == a.cols
    requires l.Valid() && l.cols == a.cols && l.rows == nm.rows + a.rows
    requires r.Valid() && r.cols == 1 && |r.rows| == |l.rows|
    ensures |Rref(RowJoin(l.rows, r.rows), l.cols + 1, l.cols).1| == |l.rows|
  {
    StackedPivots(a.rows, a.cols, nm.rows, r.rows, 1);
  }

  /** Solves the stacked system; with independent sample rows it never fails. */
  method SolveStacked(a: Matrix, nm: Matrix, b: Matrix, ghost e: Encoder) returns (raw: Matrix)
    requires b.Valid() && b.cols == 1 && a.rows != []
    requires a.rows == e.Rows() && Column(b.rows, 0) == e.Codes() && a.Rational() && nm.Rational()
    requires IsStackable(a, nm) && |nm.rows| + |Rref(a.rows, a.cols, a.cols).1| == a.cols
    ensures raw.Valid() && raw.cols == 1 && |raw.rows| == a.cols && raw.Rational()
    ensures Fits(a.rows, e.Codes(), Column(raw.rows, 0)) && InKernel(nm.rows, Column(raw.rows, 0))
  {
    var l, r := StackSystem(nm, a, b);
    StackableSolvable(a, nm, l, r);
    StackRational(a.rows, nm.rows);
    RhsRational(|nm.rows|, e, r.rows);
    raw := SolvePivotal(l, r);
    StackedFits(nm.rows, a.rows, a.cols, e.Codes(), Column(raw.rows, 0));
  }

  lemma StackRational(a: Mat, nm: Mat)
    requires MatRational(a) && MatRational(nm)
    ensures MatRational(nm + a)
  {
  }

  /** The null-space matrix of the samples and the explanation orthogonal to it. */
  method Explanation(a: Matrix, b: Matrix, ghost e: Encoder) returns (nm: Matrix, raw: Matrix)
    requires a.Valid() && b.Valid() && b.cols == 1 && a.rows != [] && Independent(a.rows, a.cols)
    requires a.rows == e.Rows() && Column(b.rows, 0) == e.Codes() && a.Rational()
    ensures nm.Valid() && (nm.rows != [] ==> nm.cols == a.cols) && IsNullMatrix(a.rows, a.cols, nm.rows) &&
            SetOrEmpty(nm)
    ensures raw.Valid() && raw.cols == 1 && |raw.rows| == a.cols && raw.Rational()
    ensures Fits(a.rows, e.Codes(), Column(raw.rows, 0)) && InKernel(nm.rows, Column(raw.rows, 0))
  {
    nm := NullSpaceMatrixOf(a);
    assert IsStackable(a, nm);
    raw := SolveStacked(a, nm, b, e);
  }

  lemma TrainingFrom(width: nat, e: Encoder, nm: Matrix, raw: Matrix, scaled: Matrix, fac: int)
    requires e.Shaped(width) && nm.Valid() && (nm.rows != [] ==> nm.cols == |e.keys| + width)
    requires IsNullMatrix(e.Rows(), |e.keys| + width, nm.rows) && SetOrEmpty(nm)
    requires raw.Valid() && raw.cols == 1 && |raw.rows| == |e.keys| + width
    requires Fits(e.Rows(), e.Codes(), Column(raw.rows, 0)) && InKernel(nm.rows, Column(raw.rows, 0))
    requires scaled.Valid() && scaled.cols == 1 && IsScaledColumn(scaled.rows, fac, Column(raw.rows, 0))
    requires IsLeastFactor(fac, Column(raw.rows, 0))
    ensures Trained(width, e, Weights(nm, scaled, fac), Column(raw.rows, 0))
  {
    assert IsTraining(width, e, Weights(nm, scaled, fac), Column(raw.rows, 0));
  }

  /**
   Computes null-space matrix and weights from the sample rows and codes. The linear system always
   has a solution, because the rows of a consistent encoder are independent.
   */
  method Train(ghost width: nat, ghost e: Encoder, rows: Mat, codes: Vec)
    returns (a: Matrix, b: Matrix, t: Weights, ghost w: Vec)
    requires e.Consistent(width) && e.repos != [] && rows == e.Rows() && codes == e.Codes()
    ensures a == Matrix(|e.keys| + width, e.Rows())
    ensures b.Valid() && b.cols == 1 && Column(b.rows, 0) == e.Codes()
    ensures Trained(width, e, t, w)
    ensures forall z: Vec :: ExplainsOrthogonally(width, e, t, z) <==> z == w
  {
    IndependentRows(width, e);
    a := Matrix(|rows[0]|, rows);
    b := ColumnVector(codes);
    RowsRational(e);
    var nm, raw := Explanation(a, b, e);
    var scaled, fac := ScaleToIntegerMatrix(raw);
    t := Weights(nm, scaled, fac);
    w := Column(raw.rows, 0);
    ScalingGivesColumn(raw, scaled, fac);
    LeastFactor(raw, fac);
    TrainingFrom(width, e, nm, raw, scaled, fac);
    forall z: Vec | ExplainsOrthogonally(width, e, t, z)
      ensures z == w
    {
      OrthogonalExplanationUnique(width, e, t, w, z);
    }
  }

  /** There is only one explanation orthogonal to the null space. */
  lemma OrthogonalExplanationUnique(width: nat, e: Encoder, t: Weights, w: Vec, z: Vec)
    requires Trained(width, e, t, w) && e.RowsIndependent(width) && ExplainsOrthogonally(width, e, t, z)
    ensures z == w
  {
    StackedUnique(e.Rows(), |e.keys| + width, t.nullMat.rows, e.Codes(), z, w);
  }

  // ---------- Answers from the weights ----------

  lemma ColumnInKernel(nm: Mat, v: Vec, prod: Matrix)
    requires IsMat(nm, |v|) && prod.Valid() && prod.cols == 1 && |prod.rows| == |nm|
    requires forall i :: 0 <= i < |nm| ==> prod.rows[i][0] == Dot(nm[i], v)
    ensures InKernel(nm, v) <==> forall i, j :: 0 <= i < |prod.rows| && 0 <= j < prod.cols ==> prod.rows[i][j] == 0.0
  {
    if forall i, j :: 0 <= i < |prod.rows| && 0 <= j < prod.cols ==> prod.rows[i][j] == 0.0 {
      forall i | 0 <= i < |nm|
        ensures Dot(nm[i], v) == 0.0
      {
        assert prod.rows[i][0] == 0.0;
      }
    }
  }

  /** Whether the instruction vector vanishes under the null-space matrix; trivially so without one. */
  method VanishesUnder(nm: Matrix, insvec: Matrix) returns (zero: bool)
    requires nm.Valid() && insvec.Valid() && insvec.cols == 1 && (nm.rows != [] ==> nm.cols == |insvec.rows|)
    ensures IsMat(nm.rows, |insvec.rows|) && (zero <==> InKernel(nm.rows, Column(insvec.rows, 0)))
  {
    if |nm.rows| == 0 {
      return true;
    }
    var prod := Multiply(nm, insvec);
    zero := IsZero(prod.value);
    ColumnInKernel(nm.rows, Column(insvec.rows, 0), prod.value);
  }

  lemma TrainedNull(width: nat, e: Encoder, t: Weights, w: Vec)
    requires Trained(width, e, t, w)
    ensures e.Shaped(width) && IsNullMatrix(e.Rows(), |e.keys| + width, t.nullMat.rows)
    ensures t.nullMat.Valid() && (t.nullMat.rows != [] ==> t.nullMat.cols == |e.keys| + width)
  {
  }

  /** What vanishes under the null-space matrix of a trained encoder is forced by the samples. */
  lemma VanishesIffForced(width: nat, e: Encoder, nm: Mat, vals: seq<int>, modi: seq<string>)
    requires e.Shaped(width) && |vals| == width && IsNullMatrix(e.Rows(), |e.keys| + width, nm)
    ensures InKernel(nm, SampleVec(e.keys, vals, modi)) <==> e.Forced(width, vals, modi)
  {
    NullMatrixDecides(e.Rows(), |e.keys| + width, nm, SampleVec(e.keys, vals, modi));
  }

  lemma TrainedColumn(width: nat, e: Encoder, t: Weights, w: Vec)
    requires Trained(width, e, t, w)
    ensures e.Shaped(width) && e.Explains(width, w)
    ensures t.pSol.Valid() && t.pSol.cols == 1 && IsScaledColumn(t.pSol.rows, t.fac, w)
  {
  }

  lemma DivideBack(f: real, d: real)
    requires f != 0.0
    ensures Times(f, d) / f == d
  {
  }

  /** The weights' value of a vector is the factor times the explanation's. */
  lemma WeightedValue(col: Mat, fac: int, w: Vec, v: Vec)
    requires IsMat(col, 1) && IsScaledColumn(col, fac, w) && |v| == |w|
    ensures Dot(Column(col, 0), v) == Times(fac as real, Dot(v, w))
    ensures Dot(Column(col, 0), v) / fac as real == Dot(v, w)
  {
    DotScale(fac as real, w, v);
    DotComm(w, v);
    DivideBack(fac as real, Dot(v, w));
  }
}
