/**
 Gauss-Jordan elimination in place, proved against the reduction as a function.
 */
module InPlaceReduction {

  import opened LinearAlgebra
  import opened RowReduction

  /** The rows held by an array. */
  ghost function RowsOf(m: array2<real>): (rows: Mat)
    reads m
    ensures |rows| == m.Length0 && IsMat(rows, m.Length1)
    ensures forall i, j :: 0 <= i < m.Length0 && 0 <= j < m.Length1 ==> rows[i][j] == m[i, j]
  {
    seq(m.Length0, i requires 0 <= i < m.Length0 reads m =>
      seq(m.Length1, j requires 0 <= j < m.Length1 reads m => m[i, j]))
  }

  lemma RowsEqual(a: Mat, b: Mat, n: nat)
    requires IsMat(a, n) && IsMat(b, n) && |a| == |b|
    requires forall i, j :: 0 <= i < |a| && 0 <= j < n ==> a[i][j] == b[i][j]
    ensures a == b
  {
    forall i | 0 <= i < |a|
      ensures a[i] == b[i]
    {
      assert forall j :: 0 <= j < n ==> a[i][j] == b[i][j];
    }
  }

  method SwapRowsInPlace(m: array2<real>, piv: nat, r: nat)
    requires piv < m.Length0 && r < m.Length0
    modifies m
    ensures RowsOf(m) == SwapRows(old(RowsOf(m)), piv, r)
  {
    for j := 0 to m.Length1
      invariant forall i, k :: 0 <= i < m.Length0 && 0 <= k < m.Length1 ==>
                  m[i, k] == if k >= j then old(m[i, k])
                             else if i == r then old(m[piv, k])
                             else if i == piv then old(m[r, k])
                             else old(m[i, k])
    {
      m[piv, j], m[r, j] := m[r, j], m[piv, j];
    }
    RowsEqual(RowsOf(m), SwapRows(old(RowsOf(m)), piv, r), m.Length1);
  }

  method DivideRowInPlace(m: array2<real>, r: nat, pivVal: real)
    requires r < m.Length0 && pivVal != 0.0
    modifies m
    ensures RowsOf(m) == ScaleRow(old(RowsOf(m)), r, 1.0 / pivVal)
  {
    for j := 0 to m.Length1
      invariant forall i, k :: 0 <= i < m.Length0 && 0 <= k < m.Length1 ==>
                  m[i, k] == if i == r && k < j then Times(1.0 / pivVal, old(m[i, k])) else old(m[i, k])
    {
      DivideIsTimes(m[r, j], pivVal);
      m[r, j] := m[r, j] / pivVal;
    }
    RowsEqual(RowsOf(m), ScaleRow(old(RowsOf(m)), r, 1.0 / pivVal), m.Length1);
  }

  lemma DivideIsTimes(x: real, p: real)
    requires p != 0.0
    ensures x / p == Times(1.0 / p, x)
  {
  }

  /** Subtracts `factor` times row `r` from row `i`. */
  method SubtractRowInPlace(m: array2<real>, i: nat, factor: real, r: nat)
    requires i < m.Length0 && r < m.Length0 && i != r
    modifies m
    ensures RowsOf(m) == AddRow(old(RowsOf(m)), m.Length1, i, -factor, r)
  {
    for j := 0 to m.Length1
      invariant forall a, k :: 0 <= a < m.Length0 && 0 <= k < m.Length1 ==>
                  m[a, k] == if a == i && k < j then old(m[a, k]) + Times(-factor, old(m[r, k])) else old(m[a, k])
    {
      SubtractIsAdd(m[i, j], factor, m[r, j]);
      m[i, j] := m[i, j] - factor * m[r, j];
    }
    RowsEqual(RowsOf(m), AddRow(old(RowsOf(m)), m.Length1, i, -factor, r), m.Length1);
  }

  lemma SubtractIsAdd(a: real, f: real, b: real)
    ensures a - f * b == a + Times(-f, b)
  {
  }

  /** Clears column `c` of every row but `r`. */
  method EliminateInPlace(m: array2<real>, r: nat, c: nat)
    requires r < m.Length0 && c < m.Length1
    modifies m
    ensures RowsOf(m) == Eliminate(old(RowsOf(m)), m.Length1, r, c, m.Length0)
  {
    for i := 0 to m.Length0
      invariant RowsOf(m) == Eliminate(old(RowsOf(m)), m.Length1, r, c, i)
    {
      assert RowsOf(m)[i][c] == m[i, c];
      if i != r {
        var factor := m[i, c];
        if factor != 0.0 {
          SubtractRowInPlace(m, i, factor, r);
        }
      }
    }
  }

  method FindPivotRow(m: array2<real>, c: nat, r: nat) returns (piv: nat)
    requires r <= m.Length0 && c < m.Length1
    ensures piv == FindPivot(RowsOf(m), m.Length1, c, r)
  {
    piv := r;
    while piv < m.Length0 && m[piv, c] == 0.0
      invariant r <= piv <= m.Length0
      invariant FindPivot(RowsOf(m), m.Length1, c, r) == FindPivot(RowsOf(m), m.Length1, c, piv)
    {
      assert RowsOf(m)[piv][c] == m[piv, c];
      piv := piv + 1;
    }
    if piv < m.Length0 {
      assert RowsOf(m)[piv][c] == m[piv, c];
    }
  }

  /** One pivot step: swap, normalise, eliminate. */
  method PivotInPlace(m: array2<real>, piv: nat, r: nat, c: nat)
    requires piv < m.Length0 && r < m.Length0 && c < m.Length1 && RowsOf(m)[piv][c] != 0.0
    modifies m
    ensures RowsOf(m) == PivotStep(old(RowsOf(m)), m.Length1, piv, r, c)
  {
    ghost var m0 := RowsOf(m);
    if piv != r {
      SwapRowsInPlace(m, piv, r);
    }
    assert RowsOf(m) == SwapRows(m0, piv, r);
    assert RowsOf(m)[r][c] == m0[piv][c];
    var pivVal := m[r, c];
    DivideRowInPlace(m, r, pivVal);
    assert RowsOf(m) == Normalise(m0, m.Length1, piv, r, c);
    EliminateInPlace(m, r, c);
  }

  /** One turn of the column loop: reduces column `c` and records it as a pivot if it has one. */
  method ReduceColumn(m: array2<real>, limit: nat, pivots: seq<nat>, c: nat) returns (pivots': seq<nat>)
    requires c < limit <= m.Length1 && |pivots| < m.Length0
    modifies m
    ensures |pivots'| <= m.Length0
    ensures forall whole :: Continues(old(RowsOf(m)), m.Length1, limit, pivots, c, whole) ==>
                            Continues(RowsOf(m), m.Length1, limit, pivots', c + 1, whole)
  {
    RrefFromStep(RowsOf(m), m.Length1, limit, pivots, c);
    var r := |pivots|;
    var piv := FindPivotRow(m, c, r);
    pivots' := pivots;
    if piv < m.Length0 {
      PivotInPlace(m, piv, r, c);
      pivots' := pivots + [c];
    }
    assert RrefFrom(RowsOf(m), m.Length1, limit, pivots', c + 1) ==
           RrefFrom(old(RowsOf(m)), m.Length1, limit, pivots, c);
  }

  /**
   Gauss-Jordan elimination in place. Pivots are searched for among the first `pivotColLimit`
   columns, or among all of them when the limit is negative; row operations span all columns.
   */
  method RrefInPlace(m: array2<real>, pivotColLimit: int) returns (pivots: seq<nat>)
    requires pivotColLimit <= m.Length1
    modifies m
    ensures (RowsOf(m), pivots) ==
            Rref(old(RowsOf(m)), m.Length1, if pivotColLimit < 0 then m.Length1 else pivotColLimit)
  {
    var colLimit: nat := if pivotColLimit < 0 then m.Length1 else pivotColLimit;
    ghost var whole := Rref(RowsOf(m), m.Length1, colLimit);
    pivots := [];
    var c: nat := 0;
    ContinuesStart(RowsOf(m), m.Length1, colLimit);
    while c < colLimit && |pivots| < m.Length0
      invariant c <= colLimit && |pivots| <= m.Length0
      invariant Continues(RowsOf(m), m.Length1, colLimit, pivots, c, whole)
    {
      pivots := ReduceColumn(m, colLimit, pivots, c);
      c := c + 1;
    }
    ContinuesDone(RowsOf(m), m.Length1, colLimit, pivots, c, whole);
  }
}
