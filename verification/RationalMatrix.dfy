/** Dense matrices of rationals. */
module RationalMatrix {
  /**
   Dense matrices of rationals: stacking, products, linear systems and null spaces.
   */

  import opened Wrappers
  import opened LinearAlgebra
  import opened RowReduction
  import opened LinearSystems
  import opened NullSpaces
  import opened Rationals
  import opened RationalReduction
  import opened InPlaceReduction

  datatype MatrixError = ShapeMismatch | Inconsistent

  /** A matrix knows its column count even when it has no rows. */
  datatype Matrix = Matrix(cols: nat, rows: Mat)
  {
    predicate Valid() {
      IsMat(rows, cols)
    }

    ghost predicate Rational() {
      MatRational(rows)
    }
  }

  /** The unset matrix. */
  const EMPTY := Matrix(0, [])

  // ---------- Building ----------

  /** A single-column matrix. */
  method ColumnVector(v: Vec) returns (m: Matrix)
    ensures m.Valid() && m.cols == 1 && |m.rows| == |v| && Column(m.rows, 0) == v
    ensures forall i :: 0 <= i < |v| ==> m.rows[i] == [v[i]]
  {
    var rows := [];
    for i := 0 to |v|
      invariant |rows| == i && forall k :: 0 <= k < i ==> rows[k] == [v[k]]
    {
      rows := rows + [[v[i]]];
    }
    m := Matrix(1, rows);
  }

  /** The entries of an array as rows. */
  method Snapshot(m: array2<real>) returns (r: Matrix)
    ensures r.Valid() && r.cols == m.Length1 && r.rows == RowsOf(m)
  {
    var rows := [];
    for i := 0 to m.Length0
      invariant rows == RowsOf(m)[..i]
    {
      var row := [];
      for j := 0 to m.Length1
        invariant row == RowsOf(m)[i][..j]
      {
        row := row + [m[i, j]];
      }
      assert row == RowsOf(m)[i];
      rows := rows + [row];
    }
    assert rows == RowsOf(m);
    r := Matrix(m.Length1, rows);
  }

  method VStack(top: Matrix, bottom: Matrix) returns (r: Result<Matrix, MatrixError>)
    requires top.Valid() && bottom.Valid()
    ensures top.rows == [] ==> r == Success(bottom)
    ensures top.rows != [] && bottom.rows == [] ==> r == Success(top)
    ensures top.rows != [] && bottom.rows != [] ==>
              r == if top.cols == bottom.cols then Success(Matrix(top.cols, top.rows + bottom.rows))
                   else Failure(ShapeMismatch)
  {
    if |top.rows| == 0 {
      return Success(bottom);
    }
    if |bottom.rows| == 0 {
      return Success(top);
    }
    if top.cols != bottom.cols {
      return Failure(ShapeMismatch);
    }
    var rows := [];
    for i := 0 to |top.rows|
      invariant rows == top.rows[..i]
    {
      rows := rows + [top.rows[i]];
    }
    for i := 0 to |bottom.rows|
      invariant rows == top.rows + bottom.rows[..i]
    {
      rows := rows + [bottom.rows[i]];
    }
    assert rows == top.rows + bottom.rows;
    r := Success(Matrix(top.cols, rows));
  }

  /** The coefficients with the right-hand sides appended, in a fresh array. */
  method JoinInto(a: Matrix, b: Matrix) returns (aug: array2<real>)
    requires a.Valid() && b.Valid() && |a.rows| == |b.rows|
    ensures fresh(aug) && aug.Length0 == |a.rows| && aug.Length1 == a.cols + b.cols
    ensures RowsOf(aug) == RowJoin(a.rows, b.rows)
  {
    aug := new real[|a.rows|, a.cols + b.cols];
    for i := 0 to |a.rows|
      invariant forall k, j :: 0 <= k < i && 0 <= j < a.cols + b.cols ==> aug[k, j] == (a.rows[k] + b.rows[k])[j]
    {
      for j := 0 to a.cols
        invariant forall k, l :: 0 <= k < i && 0 <= l < a.cols + b.cols ==> aug[k, l] == (a.rows[k] + b.rows[k])[l]
        invariant forall l :: 0 <= l < j ==> aug[i, l] == (a.rows[i] + b.rows[i])[l]
      {
        aug[i, j] := a.rows[i][j];
      }
      for j := 0 to b.cols
        invariant forall k, l :: 0 <= k < i && 0 <= l < a.cols + b.cols ==> aug[k, l] == (a.rows[k] + b.rows[k])[l]
        invariant forall l :: 0 <= l < a.cols + j ==> aug[i, l] == (a.rows[i] + b.rows[i])[l]
      {
        aug[i, a.cols + j] := b.rows[i][j];
      }
    }
    RowsEqual(RowsOf(aug), RowJoin(a.rows, b.rows), a.cols + b.cols);
  }

  // ---------- Products ----------

  lemma DotPrefix(a: Vec, b: Vec, k: nat)
    requires |a| == |b| && k < |a|
    ensures Dot(a[..k + 1], b[..k + 1]) == Dot(a[..k], b[..k]) + Times(a[k], b[k])
  {
    assert a[..k + 1] == a[..k] + [a[k]] && b[..k + 1] == b[..k] + [b[k]];
    DotConcat(a[..k], [a[k]], b[..k], [b[k]]);
  }

  /** The dot product of two column vectors. */
  method DotOf(a: Matrix, b: Matrix) returns (r: Result<real, MatrixError>)
    requires a.Valid() && b.Valid()
    ensures r.Success? <==> |a.rows| == |b.rows| && a.cols == 1 && b.cols == 1
    ensures r.Failure? ==> r.error == ShapeMismatch
    ensures r.Success? ==> r.value == Dot(Column(a.rows, 0), Column(b.rows, 0))
  {
    if |a.rows| != |b.rows| || a.cols != 1 || b.cols != 1 {
      return Failure(ShapeMismatch);
    }
    ghost var u, v := Column(a.rows, 0), Column(b.rows, 0);
    var sum := 0.0;
    for i := 0 to |a.rows|
      invariant sum == Dot(u[..i], v[..i])
    {
      DotPrefix(u, v, i);
      sum := sum + Times(a.rows[i][0], b.rows[i][0]);
    }
    assert u[..|a.rows|] == u && v[..|a.rows|] == v;
    r := Success(sum);
  }

  /** The products of the first `k` entries of a row with the columns of a matrix. */
  ghost predicate IsPartialProduct(row: Vec, x: Matrix, k: nat, acc: Vec)
    requires x.Valid() && k <= |row| == |x.rows|
  {
    && |acc| == x.cols
    && forall j: nat {:trigger Column(x.rows, j)} :: j < x.cols ==>
         acc[j] == Dot(row[..k], Column(x.rows, j)[..k])
  }

  lemma {:induction false} ProductStep(row: Vec, x: Matrix, k: nat, acc: Vec, next: Vec)
    requires x.Valid() && k < |row| == |x.rows| && IsPartialProduct(row, x, k, acc)
    requires |next| == x.cols && forall j :: 0 <= j < x.cols ==> next[j] == acc[j] + Times(row[k], x.rows[k][j])
    ensures IsPartialProduct(row, x, k + 1, next)
  {
    forall j: nat | j < x.cols
      ensures next[j] == Dot(row[..k + 1], Column(x.rows, j)[..k + 1])
    {
      DotPrefix(row, Column(x.rows, j), k);
    }
  }

  lemma {:induction false} ProductDone(row: Vec, x: Matrix, acc: Vec)
    requires x.Valid() && |row| == |x.rows| && IsPartialProduct(row, x, |row|, acc)
    ensures |acc| == x.cols && forall j :: 0 <= j < x.cols ==> acc[j] == Dot(row, Column(x.rows, j))
  {
    forall j: nat | j < x.cols
      ensures acc[j] == Dot(row, Column(x.rows, j))
    {
      assert row[..|row|] == row && Column(x.rows, j)[..|row|] == Column(x.rows, j);
    }
  }

  /** One row of a product; zero coefficients are skipped. */
  method MultiplyRow(row: Vec, x: Matrix) returns (acc: Vec)
    requires x.Valid() && |row| == |x.rows|
    ensures |acc| == x.cols && forall j :: 0 <= j < x.cols ==> acc[j] == Dot(row, Column(x.rows, j))
  {
    acc := seq(x.cols, _ => 0.0);
    for k: nat := 0 to |row|
      invariant IsPartialProduct(row, x, k, acc)
    {
      ghost var before := acc;
      if row[k] != 0.0 {
        for j: nat := 0 to x.cols
          invariant |acc| == x.cols
          invariant forall l :: 0 <= l < x.cols ==>
                    acc[l] == if l < j then before[l] + Times(row[k], x.rows[k][l]) else before[l]
        {
          acc := acc[j := acc[j] + Times(row[k], x.rows[k][j])];
        }
      }
      ProductStep(row, x, k, before, acc);
    }
    ProductDone(row, x, acc);
  }

  /** The product of two matrices. */
  method Multiply(m: Matrix, x: Matrix) returns (r: Result<Matrix, MatrixError>)
    requires m.Valid() && x.Valid()
    ensures r.Success? <==> m.cols == |x.rows|
    ensures r.Failure? ==> r.error == ShapeMismatch
    ensures r.Success? ==> r.value.Valid() && r.value.cols == x.cols && |r.value.rows| == |m.rows|
    ensures r.Success? ==> forall i, j :: 0 <= i < |m.rows| && 0 <= j < x.cols ==>
              r.value.rows[i][j] == Dot(m.rows[i], Column(x.rows, j))
  {
    if m.cols != |x.rows| {
      return Failure(ShapeMismatch);
    }
    var rows: Mat := [];
    for i := 0 to |m.rows|
      invariant |rows| == i && IsMat(rows, x.cols)
      invariant forall k, j :: 0 <= k < i && 0 <= j < x.cols ==> rows[k][j] == Dot(m.rows[k], Column(x.rows, j))
    {
      var row := MultiplyRow(m.rows[i], x);
      rows := rows + [row];
    }
    r := Success(Matrix(x.cols, rows));
  }

  /** Whether every entry is zero. */
  method IsZero(m: Matrix) returns (zero: bool)
    requires m.Valid()
    ensures zero <==> forall i, j :: 0 <= i < |m.rows| && 0 <= j < m.cols ==> m.rows[i][j] == 0.0
  {
    for i := 0 to |m.rows|
      invariant forall k, j :: 0 <= k < i && 0 <= j < m.cols ==> m.rows[k][j] == 0.0
    {
      for j := 0 to m.cols
        invariant forall l :: 0 <= l < j ==> m.rows[i][l] == 0.0
      {
        if m.rows[i][j] != 0.0 {
          return false;
        }
      }
    }
    return true;
  }

  // ---------- Linear systems ----------

  ghost predicate ColumnSolvable(a: Matrix, b: Matrix, c: nat)
    requires a.Valid() && b.Valid() && |a.rows| == |b.rows| && c < b.cols
  {
    exists x: Vec {:trigger Fits(a.rows, Column(b.rows, c), x)} ::
      |x| == a.cols && Fits(a.rows, Column(b.rows, c), x)
  }

  /** Column `c` of `x` solves the system for right-hand side `c`, with zeros at the free variables. */
  ghost predicate SolvesColumn(a: Matrix, b: Matrix, x: Matrix, c: nat)
    requires a.Valid() && b.Valid() && |a.rows| == |b.rows| && c < b.cols
    requires x.Valid() && x.cols == b.cols && |x.rows| == a.cols
  {
    && Fits(a.rows, Column(b.rows, c), Column(x.rows, c))
    && forall j: nat :: j < a.cols && j !in Rref(RowJoin(a.rows, b.rows), a.cols + b.cols, a.cols).1 ==>
         x.rows[j][c] == 0.0
  }

  /** Whether a right-hand side is left over in the rows from `p` on. */
  method FindLeftover(aug: array2<real>, p: nat, n: nat) returns (found: bool, ghost i: nat, ghost c: nat)
    requires p <= aug.Length0 && n <= aug.Length1
    ensures found ==> p <= i < aug.Length0 && c < aug.Length1 - n && RowsOf(aug)[i][n + c] != 0.0
    ensures !found ==> forall k, l :: p <= k < aug.Length0 && n <= l < aug.Length1 ==> RowsOf(aug)[k][l] == 0.0
  {
    i, c := 0, 0;
    for k := p to aug.Length0
      invariant forall r, l :: p <= r < k && n <= l < aug.Length1 ==> RowsOf(aug)[r][l] == 0.0
    {
      for l := n to aug.Length1
        invariant forall j :: n <= j < l ==> RowsOf(aug)[k][j] == 0.0
      {
        assert RowsOf(aug)[k][l] == aug[k, l];
        if aug[k, l] != 0.0 {
          return true, k, l - n;
        }
      }
    }
    return false, 0, 0;
  }

  /** The candidate solution: reduced right-hand sides at the pivots, zero elsewhere. */
  method PivotEntries(aug: array2<real>, pivots: seq<nat>, n: nat, k: nat) returns (x: Matrix)
    requires aug.Length1 == n + k && |pivots| <= aug.Length0
    requires forall a, b :: 0 <= a < b < |pivots| ==> pivots[a] < pivots[b]
    requires forall a :: 0 <= a < |pivots| ==> pivots[a] < n
    ensures x.Valid() && x.cols == k && |x.rows| == n
    ensures forall c: nat :: c < k ==> IsPivotSolution(RowsOf(aug), n, k, pivots, c, Column(x.rows, c))
  {
    var sol := new real[n, k]((_, _) => 0.0);
    for idx := 0 to |pivots|
      invariant forall a, c :: 0 <= a < idx && 0 <= c < k ==> sol[pivots[a], c] == aug[a, n + c]
      invariant forall j, c :: 0 <= j < n && 0 <= c < k && j !in pivots[..idx] ==> sol[j, c] == 0.0
    {
      assert forall a :: 0 <= a < idx ==> pivots[a] != pivots[idx];
      for c := 0 to k
        invariant forall a, l :: 0 <= a < idx && 0 <= l < k ==> sol[pivots[a], l] == aug[a, n + l]
        invariant forall l :: 0 <= l < c ==> sol[pivots[idx], l] == aug[idx, n + l]
        invariant forall j, l :: 0 <= j < n && 0 <= l < k && j !in pivots[..idx + 1] ==> sol[j, l] == 0.0
      {
        assert pivots[idx] in pivots[..idx + 1];
        sol[pivots[idx], c] := aug[idx, n + c];
      }
    }
    assert pivots[..|pivots|] == pivots;
    x := Snapshot(sol);
  }

  lemma ReducedSolves(a: Matrix, b: Matrix, r: Mat, pivots: seq<nat>, x: Matrix, c: nat)
    requires a.Valid() && b.Valid() && |a.rows| == |b.rows| && c < b.cols
    requires x.Valid() && x.cols == b.cols && |x.rows| == a.cols
    requires IsMat(r, a.cols + b.cols) && IsRref(r, a.cols + b.cols, pivots, a.cols)
    requires RowReduces(RowJoin(a.rows, b.rows), r, a.cols + b.cols)
    requires forall i :: |pivots| <= i < |r| ==> r[i][a.cols + c] == 0.0
    requires IsPivotSolution(r, a.cols, b.cols, pivots, c, Column(x.rows, c))
    ensures Fits(a.rows, Column(b.rows, c), Column(x.rows, c))
  {
    PivotSolutionFits(r, a.cols, b.cols, pivots, c, Column(x.rows, c));
    ReducedProbe(a.rows, a.cols, b.rows, b.cols, r, Column(x.rows, c), c);
  }

  lemma LeftoverNotSolvable(a: Matrix, b: Matrix, r: Mat, pivots: seq<nat>, i: nat, c: nat)
    requires a.Valid() && b.Valid() && |a.rows| == |b.rows| && c < b.cols
    requires IsMat(r, a.cols + b.cols) && IsRref(r, a.cols + b.cols, pivots, a.cols)
    requires RowReduces(RowJoin(a.rows, b.rows), r, a.cols + b.cols)
    requires |pivots| <= i < |r| && r[i][a.cols + c] != 0.0
    ensures !ColumnSolvable(a, b, c)
  {
    forall x: Vec {:trigger Fits(a.rows, Column(b.rows, c), x)} | |x| == a.cols
      ensures !Fits(a.rows, Column(b.rows, c), x)
    {
      LeftoverUnsolvable(r, a.cols, b.cols, pivots, c, i, x);
      ReducedProbe(a.rows, a.cols, b.rows, b.cols, r, x, c);
    }
  }

  /** What `Solve` answers. */
  ghost predicate IsSolveResult(a: Matrix, b: Matrix, r: Result<Matrix, MatrixError>)
    requires a.Valid() && b.Valid()
  {
    if |a.rows| != |b.rows| then r == Failure(ShapeMismatch)
    else match r
      case Failure(e) =>
        e == Inconsistent && exists c: nat :: c < b.cols && !ColumnSolvable(a, b, c)
      case Success(x) =>
        x.Valid() && x.cols == b.cols && |x.rows| == a.cols && forall c: nat :: c < b.cols ==> SolvesColumn(a, b, x, c)
  }

  lemma SolutionRational(a: Matrix, b: Matrix, r: Mat, pivots: seq<nat>, x: Matrix)
    requires a.Valid() && b.Valid() && |a.rows| == |b.rows| && a.Rational() && b.Rational()
    requires x.Valid() && x.cols == b.cols && |x.rows| == a.cols
    requires IsReducedJoin(a, b, r, pivots)
    requires forall c: nat :: c < b.cols ==> IsPivotSolution(r, a.cols, b.cols, pivots, c, Column(x.rows, c))
    ensures x.Rational()
  {
    RrefRational(RowJoin(a.rows, b.rows), a.cols + b.cols, a.cols);
    forall j, c | 0 <= j < |x.rows| && 0 <= c < |x.rows[j]|
      ensures IsRational(x.rows[j][c])
    {
      var v := Column(x.rows, c);
      assert v[j] == x.rows[j][c];
      IntegerIsRational(0);
      assert IsPivotSolution(r, a.cols, b.cols, pivots, c, v);
      if j in pivots {
        var p :| 0 <= p < |pivots| && pivots[p] == j;
        assert v[pivots[p]] == r[p][a.cols + c];
      }
    }
  }

  /** `r` and `pivots` are the reduced joined matrix and its pivot columns. */
  ghost predicate IsReducedJoin(a: Matrix, b: Matrix, r: Mat, pivots: seq<nat>)
    requires a.Valid() && b.Valid() && |a.rows| == |b.rows|
  {
    && IsMat(r, a.cols + b.cols)
    && IsRref(r, a.cols + b.cols, pivots, a.cols)
    && RowReduces(RowJoin(a.rows, b.rows), r, a.cols + b.cols)
    && (r, pivots) == Rref(RowJoin(a.rows, b.rows), a.cols + b.cols, a.cols)
  }

  /** Reads the answer off the reduced joined matrix. */
  method ReadSolution(a: Matrix, rhs: Matrix, aug: array2<real>, pivots: seq<nat>)
    returns (r: Result<Matrix, MatrixError>)
    requires a.Valid() && rhs.Valid() && |a.rows| == |rhs.rows|
    requires aug.Length0 == |a.rows| && aug.Length1 == a.cols + rhs.cols
    requires IsReducedJoin(a, rhs, RowsOf(aug), pivots)
    ensures IsSolveResult(a, rhs, r)
    ensures r.Failure? ==> |pivots| < |a.rows|
    ensures r.Success? && a.Rational() && rhs.Rational() ==> r.value.Rational()
  {
    var found, i, c := FindLeftover(aug, |pivots|, a.cols);
    if found {
      LeftoverNotSolvable(a, rhs, RowsOf(aug), pivots, i, c);
      return Failure(Inconsistent);
    }
    var x := PivotEntries(aug, pivots, a.cols, rhs.cols);
    forall c: nat | c < rhs.cols
      ensures SolvesColumn(a, rhs, x, c)
    {
      ReducedSolves(a, rhs, RowsOf(aug), pivots, x, c);
      assert forall l: nat :: l < a.cols ==> x.rows[l][c] == Column(x.rows, c)[l];
    }
    if a.Rational() && rhs.Rational() {
      SolutionRational(a, rhs, RowsOf(aug), pivots, x);
    }
    r := Success(x);
  }

  /**
   Solves the system for every right-hand side at once. It fails with `Inconsistent` exactly when
   some right-hand side has no solution, and never otherwise for matching row counts.
   */
  method Solve(a: Matrix, rhs: Matrix) returns (r: Result<Matrix, MatrixError>)
    requires a.Valid() && rhs.Valid()
    ensures IsSolveResult(a, rhs, r)
    ensures r == Failure(Inconsistent) ==>
              |a.rows| == |rhs.rows| && |Rref(RowJoin(a.rows, rhs.rows), a.cols + rhs.cols, a.cols).1| < |a.rows|
    ensures r.Success? && a.Rational() && rhs.Rational() ==> r.value.Rational()
  {
    if |a.rows| != |rhs.rows| {
      return Failure(ShapeMismatch);
    }
    var aug := JoinInto(a, rhs);
    RrefCorrect(RowsOf(aug), a.cols + rhs.cols, a.cols);
    var pivots := RrefInPlace(aug, a.cols);
    assert IsReducedJoin(a, rhs, RowsOf(aug), pivots);
    r := ReadSolution(a, rhs, aug, pivots);
  }

  // ---------- Null spaces ----------

  /** The basis vector of free column `f`. */
  method BasisVectorOf(m: array2<real>, pivots: seq<nat>, f: nat) returns (v: Vec)
    requires f < m.Length1 && f !in pivots && |pivots| <= m.Length0
    requires forall a, b :: 0 <= a < b < |pivots| ==> pivots[a] < pivots[b]
    requires forall a :: 0 <= a < |pivots| ==> pivots[a] < m.Length1
    ensures IsBasisVector(RowsOf(m), m.Length1, pivots, f, v)
  {
    v := Zeros(m.Length1)[f := 1.0];
    for idx := 0 to |pivots|
      invariant |v| == m.Length1 && v[f] == 1.0
      invariant forall a :: 0 <= a < idx ==> v[pivots[a]] == -RowsOf(m)[a][f]
      invariant forall j :: 0 <= j < |v| && j != f && j !in pivots ==> v[j] == 0.0
    {
      assert pivots[idx] in pivots && RowsOf(m)[idx][f] == m[idx, f];
      v := v[pivots[idx] := -m[idx, f]];
    }
  }

  /** Which of the first `n` columns are pivots. */
  method MarkPivots(pivots: seq<nat>, n: nat) returns (isPivotCol: seq<bool>)
    requires forall a :: 0 <= a < |pivots| ==> pivots[a] < n
    ensures |isPivotCol| == n && forall j: nat :: j < n ==> (isPivotCol[j] <==> j in pivots)
  {
    isPivotCol := seq(n, _ => false);
    for a := 0 to |pivots|
      invariant |isPivotCol| == n && forall j: nat :: j < n ==> (isPivotCol[j] <==> j in pivots[..a])
    {
      isPivotCol := isPivotCol[pivots[a] := true];
      assert pivots[..a + 1] == pivots[..a] + [pivots[a]];
    }
    assert pivots[..|pivots|] == pivots;
  }

  /** The basis vectors of the free columns, in column order. */
  method BasisOf(m: array2<real>, pivots: seq<nat>) returns (basis: Mat)
    requires IsRref(RowsOf(m), m.Length1, pivots, m.Length1)
    ensures IsMat(basis, m.Length1) && IsNullBasis(RowsOf(m), m.Length1, pivots, basis)
  {
    var isPivotCol := MarkPivots(pivots, m.Length1);
    basis := [];
    for f: nat := 0 to m.Length1
      invariant |basis| == |FreeColumns(pivots, f)| && IsMat(basis, m.Length1)
      invariant forall k :: 0 <= k < |basis| ==>
                  IsBasisVector(RowsOf(m), m.Length1, pivots, FreeColumns(pivots, f)[k], basis[k])
    {
      if !isPivotCol[f] {
        var v := BasisVectorOf(m, pivots, f);
        basis := basis + [v];
      }
    }
  }

  /** The entries of a matrix in a fresh array. */
  method Copy(m: Matrix) returns (c: array2<real>)
    requires m.Valid()
    ensures fresh(c) && c.Length0 == |m.rows| && c.Length1 == m.cols && RowsOf(c) == m.rows
  {
    c := new real[|m.rows|, m.cols]((i, j) requires 0 <= i < |m.rows| && 0 <= j < m.cols => m.rows[i][j]);
    RowsEqual(RowsOf(c), m.rows, m.cols);
  }

  /** A basis of all vectors the matrix sends to zero, one per column without a pivot. */
  method Nullspace(m: Matrix) returns (basis: Mat)
    requires m.Valid()
    ensures IsNullMatrix(m.rows, m.cols, basis)
    ensures |basis| + |Rref(m.rows, m.cols, m.cols).1| == m.cols
    ensures m.Rational() ==> MatRational(basis)
  {
    var n := m.cols;
    var work := Copy(m);
    RrefCorrect(m.rows, n, n);
    var pivots := RrefInPlace(work, -1);
    basis := BasisOf(work, pivots);
    BasisIsNullMatrix(m.rows, n, basis);
    BasisSize(RowsOf(work), n, pivots, basis);
    if m.Rational() {
      RrefRational(m.rows, n, n);
      BasisRational(RowsOf(work), n, pivots, basis);
    }
  }

  lemma BasisRational(r: Mat, n: nat, pivots: seq<nat>, basis: Mat)
    requires IsMat(r, n) && MatRational(r) && |pivots| <= |r| && IsMat(basis, n)
    requires IsNullBasis(r, n, pivots, basis)
    ensures MatRational(basis)
  {
    forall k, j | 0 <= k < |basis| && 0 <= j < n
      ensures IsRational(basis[k][j])
    {
      var f := FreeColumns(pivots, n)[k];
      assert IsBasisVector(r, n, pivots, f, basis[k]);
      IntegerIsRational(0);
      IntegerIsRational(1);
      if j in pivots {
        var a :| 0 <= a < |pivots| && pivots[a] == j;
        RationalMinus(r[a][f]);
      }
    }
  }

  // ---------- Scaling to integers ----------

  ghost predicate ClearsTo(d: int, v: Vec, j: nat)
    requires j <= |v|
  {
    forall i :: 0 <= i < j ==> Clears(d, v[i])
  }

  ghost predicate ClearsRow(d: int, v: Vec) {
    ClearsTo(d, v, |v|)
  }

  ghost predicate ClearsRowsTo(d: int, m: Mat, i: nat)
    requires i <= |m|
  {
    forall r :: 0 <= r < i ==> ClearsRow(d, m[r])
  }

  lemma ClearsRowMultiple(d: int, v: Vec, j: nat, k: int)
    requires j <= |v| && ClearsTo(d, v, j) && k >= 1 && Divides(d, k)
    ensures ClearsTo(k, v, j)
  {
    forall i | 0 <= i < j
      ensures Clears(k, v[i])
    {
      ClearsMultiple(d, v[i], k);
    }
  }

  /** `l` is the least common multiple of `l0` and the denominators of the first `j` entries. */
  ghost predicate IsRowLcm(l0: int, l: int, v: Vec, j: nat)
    requires j <= |v|
  {
    && l >= 1 && Divides(l0, l) && ClearsTo(l, v, j)
    && forall k :: Divides(l0, k) && ClearsTo(k, v, j) ==> Divides(l, k)
  }

  /** Folds the denominators of one row into a common multiple. */
  method RowDenomLcm(l0: int, v: Vec) returns (l: int)
    requires l0 >= 1 && VecRational(v)
    ensures IsRowLcm(l0, l, v, |v|)
  {
    l := l0;
    for j := 0 to |v|
      invariant IsRowLcm(l0, l, v, j)
    {
      ghost var before := l;
      var d := Denominator(v[j]);
      l := Lcm(l, d);
      ExtendRow(l0, before, l, d, v, j);
    }
  }

  lemma ExtendRow(l0: int, before: int, l: int, d: int, v: Vec, j: nat)
    requires j < |v| && IsRowLcm(l0, before, v, j)
    requires Clears(d, v[j]) && forall k: int :: Clears(k, v[j]) ==> Divides(d, k)
    requires l >= 1 && Divides(before, l) && Divides(d, l)
    requires forall k :: Divides(before, k) && Divides(d, k) ==> Divides(l, k)
    ensures IsRowLcm(l0, l, v, j + 1)
  {
    DivisibleTransitive(l, before, l0);
    ClearsRowMultiple(before, v, j, l);
    ClearsMultiple(d, v[j], l);
    assert forall k :: ClearsTo(k, v, j + 1) ==> ClearsTo(k, v, j) && Clears(k, v[j]);
  }

  /** `l` is the least common multiple of the denominators of the first `i` rows. */
  ghost predicate IsDenomLcm(l: int, m: Mat, i: nat)
    requires i <= |m|
  {
    && l >= 1 && ClearsRowsTo(l, m, i)
    && forall k :: ClearsRowsTo(k, m, i) ==> Divides(l, k)
  }

  /** The least positive integer whose product with every entry is an integer. */
  method MatrixDenomLcm(m: Matrix) returns (l: int)
    requires m.Valid() && m.Rational()
    ensures IsDenomLcm(l, m.rows, |m.rows|)
  {
    l := 1;
    for i := 0 to |m.rows|
      invariant IsDenomLcm(l, m.rows, i)
    {
      ghost var before := l;
      l := RowDenomLcm(l, m.rows[i]);
      ExtendRows(before, l, m.rows, i);
    }
  }

  lemma ExtendRows(before: int, l: int, m: Mat, i: nat)
    requires i < |m| && IsDenomLcm(before, m, i) && IsRowLcm(before, l, m[i], |m[i]|)
    ensures IsDenomLcm(l, m, i + 1)
  {
    forall r | 0 <= r < i
      ensures ClearsRow(l, m[r])
    {
      ClearsRowMultiple(before, m[r], |m[r]|, l);
    }
    assert forall k :: ClearsRowsTo(k, m, i + 1) ==> ClearsRowsTo(k, m, i) && ClearsRow(k, m[i]);
  }

  /** `scaled` is `m` times the least factor that makes every entry an integer. */
  ghost predicate IsIntegerScaling(m: Mat, scaled: Mat, fac: int) {
    && IsDenomLcm(fac, m, |m|)
    && |scaled| == |m| && forall i :: 0 <= i < |m| ==> scaled[i] == ScaleVec(fac as real, m[i])
  }

  method ScaleToIntegerMatrix(m: Matrix) returns (scaled: Matrix, fac: int)
    requires m.Valid() && m.Rational()
    ensures scaled.Valid() && scaled.cols == m.cols && IsIntegerScaling(m.rows, scaled.rows, fac)
    ensures scaled.Rational()
  {
    fac := MatrixDenomLcm(m);
    var rows: Mat := [];
    IntegerIsRational(fac);
    for i := 0 to |m.rows|
      invariant |rows| == i && forall k :: 0 <= k < i ==> rows[k] == ScaleVec(fac as real, m.rows[k])
      invariant MatRational(rows)
    {
      var row: Vec := [];
      for j := 0 to m.cols
        invariant row == ScaleVec(fac as real, m.rows[i])[..j]
      {
        row := row + [Times(fac as real, m.rows[i][j])];
      }
      ScaleVecRational(fac as real, m.rows[i]);
      assert row == ScaleVec(fac as real, m.rows[i]);
      rows := rows + [row];
    }
    scaled := Matrix(m.cols, rows);
  }

  /** The null-space basis as the rows of an integer matrix; unset when the null space is trivial. */
  method NullSpaceMatrixOf(m: Matrix) returns (nm: Matrix)
    requires m.Valid() && m.Rational()
    ensures nm.Valid() && nm.Rational() && (nm.rows == [] ==> nm == EMPTY) && (nm.rows != [] ==> nm.cols == m.cols)
    ensures IsNullMatrix(m.rows, m.cols, nm.rows)
    ensures |nm.rows| + |Rref(m.rows, m.cols, m.cols).1| == m.cols
  {
    var basis := Nullspace(m);
    if |basis| == 0 {
      return EMPTY;
    }
    var fac;
    nm, fac := ScaleToIntegerMatrix(Matrix(m.cols, basis));
    ScaledNullMatrix(m.rows, m.cols, basis, fac as real, nm.rows);
  }
}
