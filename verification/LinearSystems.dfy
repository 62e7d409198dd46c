/**
 Reading solutions and null-space bases off a reduced matrix.
 */
module LinearSystems {
  import opened LinearAlgebra
  import opened RowReduction

  // ---------- Right-hand sides as extra columns ----------

  function RowJoin(a: Mat, b: Mat): (j: Mat)
    requires |a| == |b|
    ensures |j| == |a| && forall i :: 0 <= i < |a| ==> j[i] == a[i] + b[i]
  {
    seq(|a|, i requires 0 <= i < |a| => a[i] + b[i])
  }

  /** A candidate solution followed by minus the unit vector of right-hand side `c`. */
  function Probe(x: Vec, k: nat, c: nat): (p: Vec)
    requires c < k
    ensures |p| == |x| + k
  {
    x + Zeros(k)[c := -1.0]
  }

  lemma ProbeDot(a: Vec, b: Vec, x: Vec, c: nat)
    requires |a| == |x| && c < |b|
    ensures Dot(a + b, Probe(x, |b|, c)) == Dot(a, x) - b[c]
  {
    var u := Zeros(|b|)[c := -1.0];
    DotConcat(a, b, x, u);
    DotSingle(b, u, c);
    MinusOne(b[c]);
  }

  lemma MinusOne(a: real)
    ensures Times(a, -1.0) == -a
  {
  }

  /** The probe lies in the kernel of the joined matrix exactly when it solves the system. */
  lemma JoinKernel(a: Mat, n: nat, b: Mat, k: nat, x: Vec, c: nat)
    requires IsMat(a, n) && IsMat(b, k) && |a| == |b| && |x| == n && c < k
    ensures IsMat(RowJoin(a, b), n + k)
    ensures InKernel(RowJoin(a, b), Probe(x, k, c)) <==> Fits(a, Column(b, c), x)
  {
    var j := RowJoin(a, b);
    forall i | 0 <= i < |a|
      ensures Dot(j[i], Probe(x, k, c)) == Dot(a[i], x) - b[i][c]
    {
      ProbeDot(a[i], b[i], x, c);
    }
  }

  /** A probe lies in the kernel of the reduced matrix exactly when it solves the original system. */
  lemma ReducedProbe(a: Mat, n: nat, b: Mat, k: nat, r: Mat, x: Vec, c: nat)
    requires IsMat(a, n) && IsMat(b, k) && |a| == |b| && c < k && |x| == n
    requires IsMat(r, n + k) && RowReduces(RowJoin(a, b), r, n + k)
    ensures InKernel(r, Probe(x, k, c)) <==> Fits(a, Column(b, c), x)
  {
    ReducesKeeps(RowJoin(a, b), r, n + k);
    JoinKernel(a, n, b, k, x, c);
  }

  /** Pivot entries hold the reduced right-hand side, all others are zero. */
  predicate IsPivotSolution(r: Mat, n: nat, k: nat, pivots: seq<nat>, c: nat, x: Vec)
    requires IsMat(r, n + k) && c < k && |pivots| <= |r|
  {
    && |x| == n
    && (forall a :: 0 <= a < |pivots| ==> pivots[a] < n && x[pivots[a]] == r[a][n + c])
    && (forall j :: 0 <= j < n && j !in pivots ==> x[j] == 0.0)
  }

  /** The row of a pivot picks out the pivot entry of a vector that vanishes off the pivots. */
  lemma PivotRowDot(r: Mat, n: nat, w: nat, pivots: seq<nat>, x: Vec, a: nat)
    requires IsMat(r, w) && n <= w && IsRref(r, w, pivots, n) && |x| == n
    requires forall j :: 0 <= j < n && j !in pivots ==> x[j] == 0.0
    requires a < |pivots|
    ensures Dot(r[a][..n], x) == x[pivots[a]]
  {
    var row := r[a][..n];
    forall j | 0 <= j < n && j != pivots[a]
      ensures row[j] == 0.0 || x[j] == 0.0
    {
      if j in pivots {
        var b :| 0 <= b < |pivots| && pivots[b] == j;
        assert r[a][pivots[b]] == 0.0;
      }
    }
    DotSingle(row, x, pivots[a]);
    assert row[pivots[a]] == 1.0;
    TimesOneLeft(x[pivots[a]]);
  }

  lemma TimesOneLeft(a: real)
    ensures Times(1.0, a) == a
  {
  }

  /** When the rows below the pivots have no right-hand side left, the pivot entries solve the system. */
  lemma PivotSolutionFits(r: Mat, n: nat, k: nat, pivots: seq<nat>, c: nat, x: Vec)
    requires IsMat(r, n + k) && IsRref(r, n + k, pivots, n) && c < k
    requires IsPivotSolution(r, n, k, pivots, c, x)
    requires forall i :: |pivots| <= i < |r| ==> r[i][n + c] == 0.0
    ensures InKernel(r, Probe(x, k, c))
  {
    forall i | 0 <= i < |r|
      ensures Dot(r[i], Probe(x, k, c)) == 0.0
    {
      var left, right := r[i][..n], r[i][n..];
      assert r[i] == left + right;
      ProbeDot(left, right, x, c);
      if i < |pivots| {
        PivotRowDot(r, n, n + k, pivots, x, i);
      } else {
        DotVanishes(left, x);
      }
    }
  }

  /** A right-hand side left over below the pivots leaves nothing that solves the system. */
  lemma LeftoverUnsolvable(r: Mat, n: nat, k: nat, pivots: seq<nat>, c: nat, i: nat, x: Vec)
    requires IsMat(r, n + k) && IsRref(r, n + k, pivots, n) && c < k && |x| == n
    requires |pivots| <= i < |r| && r[i][n + c] != 0.0
    ensures !InKernel(r, Probe(x, k, c))
  {
    var left, right := r[i][..n], r[i][n..];
    assert r[i] == left + right;
    ProbeDot(left, right, x, c);
    DotVanishes(left, x);
  }

  // ---------- Null spaces ----------

  /** The columns below `f` that are not pivots, ascending. */
  function FreeColumns(pivots: seq<nat>, f: nat): (free: seq<nat>)
    ensures forall a :: 0 <= a < |free| ==> free[a] < f
  {
    if f == 0 then []
    else FreeColumns(pivots, f - 1) + if f - 1 in pivots then [] else [f - 1]
  }

  /** Column `j`, if it is free, in the list of free columns. */
  lemma {:induction false} FreeColumnListed(pivots: seq<nat>, f: nat, j: nat)
    requires j < f && j !in pivots
    ensures exists a :: 0 <= a < |FreeColumns(pivots, f)| && FreeColumns(pivots, f)[a] == j
  {
    var rest := FreeColumns(pivots, f - 1);
    if j == f - 1 {
      assert FreeColumns(pivots, f)[|rest|] == j;
    } else {
      FreeColumnListed(pivots, f - 1, j);
      var a :| 0 <= a < |rest| && rest[a] == j;
      assert FreeColumns(pivots, f)[a] == j;
    }
  }

  lemma {:induction false} FreeColumnsAreFree(pivots: seq<nat>, f: nat)
    ensures forall a :: 0 <= a < |FreeColumns(pivots, f)| ==> FreeColumns(pivots, f)[a] !in pivots
    ensures forall a, b :: 0 <= a < b < |FreeColumns(pivots, f)| ==>
              FreeColumns(pivots, f)[a] < FreeColumns(pivots, f)[b]
  {
    if f > 0 {
      FreeColumnsAreFree(pivots, f - 1);
    }
  }

  /** How many pivots lie below `f`. */
  function PivotsBelow(pivots: seq<nat>, f: nat): nat {
    if f == 0 then 0 else PivotsBelow(pivots, f - 1) + if f - 1 in pivots then 1 else 0
  }

  lemma {:induction false} FreeCount(pivots: seq<nat>, f: nat)
    ensures |FreeColumns(pivots, f)| == f - PivotsBelow(pivots, f)
  {
    if f > 0 {
      FreeCount(pivots, f - 1);
    }
  }

  lemma {:induction false} PivotsBelowCount(pivots: seq<nat>, f: nat, k: nat)
    requires forall a, b :: 0 <= a < b < |pivots| ==> pivots[a] < pivots[b]
    requires k <= |pivots|
    requires forall a :: 0 <= a < |pivots| ==> (pivots[a] < f <==> a < k)
    ensures PivotsBelow(pivots, f) == k
  {
    if f > 0 {
      if k > 0 && pivots[k - 1] == f - 1 {
        assert f - 1 in pivots;
        PivotsBelowCount(pivots, f - 1, k - 1);
      } else {
        assert f - 1 !in pivots;
        PivotsBelowCount(pivots, f - 1, k);
      }
    }
  }

  /** The basis vector of free column `f`. */
  predicate IsBasisVector(r: Mat, n: nat, pivots: seq<nat>, f: nat, v: Vec)
    requires IsMat(r, n) && |pivots| <= |r| && f < n
  {
    && |v| == n
    && v[f] == 1.0
    && (forall a :: 0 <= a < |pivots| ==> pivots[a] < n && v[pivots[a]] == -r[a][f])
    && (forall j :: 0 <= j < n && j != f && j !in pivots ==> v[j] == 0.0)
  }

  ghost predicate IsNullBasis(r: Mat, n: nat, pivots: seq<nat>, basis: Mat)
    requires IsMat(r, n) && |pivots| <= |r|
  {
    var free := FreeColumns(pivots, n);
    && |basis| == |free|
    && forall k :: 0 <= k < |basis| ==> IsBasisVector(r, n, pivots, free[k], basis[k])
  }

  lemma BasisVectorInKernel(r: Mat, n: nat, pivots: seq<nat>, f: nat, v: Vec)
    requires IsMat(r, n) && IsRref(r, n, pivots, n) && f < n && f !in pivots
    requires IsBasisVector(r, n, pivots, f, v)
    ensures InKernel(r, v)
  {
    forall i | 0 <= i < |r|
      ensures Dot(r[i], v) == 0.0
    {
      if i < |pivots| {
        var p := pivots[i];
        assert p in pivots;
        forall j | 0 <= j < n && j != p && j != f
          ensures r[i][j] == 0.0 || v[j] == 0.0
        {
          if j in pivots {
            var b :| 0 <= b < |pivots| && pivots[b] == j;
            assert r[i][pivots[b]] == 0.0;
          }
        }
        if p < f {
          DotTwo(r[i], v, p, f);
        } else {
          DotTwo(r[i], v, f, p);
        }
        TimesOneLeft(v[p]);
        assert Times(r[i][f], 1.0) == r[i][f] by { TimesOne(r[i][f]); }
      } else {
        DotVanishes(r[i], v);
      }
    }
  }

  /** The entry of a combination of basis vectors at a free column is the coefficient of its vector. */
  lemma FreeEntry(r: Mat, n: nat, pivots: seq<nat>, basis: Mat, t: Vec, k: nat)
    requires IsMat(r, n) && |pivots| <= |r| && IsNullBasis(r, n, pivots, basis)
    requires IsMat(basis, n) && |t| == |basis| && k < |basis|
    ensures FreeColumns(pivots, n)[k] < n
    ensures Combine(t, basis, n)[FreeColumns(pivots, n)[k]] == t[k]
  {
    var free := FreeColumns(pivots, n);
    var f := free[k];
    FreeColumnsAreFree(pivots, n);
    var col := Column(basis, f);
    forall l | 0 <= l < |basis| && l != k
      ensures col[l] == 0.0
    {
      assert free[l] != f;
      assert IsBasisVector(r, n, pivots, free[l], basis[l]);
    }
    assert IsBasisVector(r, n, pivots, f, basis[k]);
    DotSingle(t, col, k);
    TimesOne(t[k]);
  }

  /** The basis vectors are independent. */
  lemma BasisIndependent(r: Mat, n: nat, pivots: seq<nat>, basis: Mat)
    requires IsMat(r, n) && |pivots| <= |r| && IsNullBasis(r, n, pivots, basis) && IsMat(basis, n)
    ensures Independent(basis, n)
  {
    forall y: Vec {:trigger Combine(y, basis, n)} | |y| == |basis| && Combine(y, basis, n) == Zeros(n)
      ensures y == Zeros(|basis|)
    {
      forall k | 0 <= k < |basis|
        ensures y[k] == 0.0
      {
        FreeEntry(r, n, pivots, basis, y, k);
      }
    }
  }

  /** A kernel vector that vanishes on the free columns is zero. */
  lemma KernelVanishes(r: Mat, n: nat, pivots: seq<nat>, w: Vec)
    requires IsMat(r, n) && IsRref(r, n, pivots, n) && |w| == n && InKernel(r, w)
    requires forall j :: 0 <= j < n && j !in pivots ==> w[j] == 0.0
    ensures w == Zeros(n)
  {
    forall j | 0 <= j < n
      ensures w[j] == 0.0
    {
      if j in pivots {
        var a :| 0 <= a < |pivots| && pivots[a] == j;
        PivotRowDot(r, n, n, pivots, w, a);
        assert r[a][..n] == r[a];
      }
    }
  }

  /** Coefficients that express a kernel vector: its entries at the free columns. */
  function FreeEntries(pivots: seq<nat>, x: Vec): (t: Vec)
    ensures |t| == |FreeColumns(pivots, |x|)|
  {
    var free := FreeColumns(pivots, |x|);
    seq(|free|, k requires 0 <= k < |free| => x[free[k]])
  }

  lemma CombinationInKernel(m: Mat, n: nat, basis: Mat, t: Vec)
    requires IsMat(m, n) && IsMat(basis, n) && |t| == |basis|
    requires forall k :: 0 <= k < |basis| ==> InKernel(m, basis[k])
    ensures InKernel(m, Combine(t, basis, n))
  {
    var c := Combine(t, basis, n);
    forall i | 0 <= i < |m|
      ensures Dot(m[i], c) == 0.0
    {
      CombineDot(t, basis, n, m[i]);
      DotComm(m[i], c);
      forall k | 0 <= k < |basis|
        ensures Apply(basis, m[i])[k] == 0.0
      {
        DotComm(basis[k], m[i]);
      }
      DotVanishes(t, Apply(basis, m[i]));
    }
  }

  /** The basis spans the kernel: every kernel vector is the combination given by its free entries. */
  lemma BasisSpans(r: Mat, n: nat, pivots: seq<nat>, basis: Mat, x: Vec)
    requires IsMat(r, n) && IsRref(r, n, pivots, n) && IsNullBasis(r, n, pivots, basis) && IsMat(basis, n)
    requires |x| == n && InKernel(r, x)
    ensures |FreeEntries(pivots, x)| == |basis|
    ensures Combine(FreeEntries(pivots, x), basis, n) == x
  {
    var free := FreeColumns(pivots, n);
    var t := FreeEntries(pivots, x);
    var c := Combine(t, basis, n);
    FreeColumnsAreFree(pivots, n);
    forall k | 0 <= k < |basis|
      ensures InKernel(r, basis[k])
    {
      BasisVectorInKernel(r, n, pivots, free[k], basis[k]);
    }
    CombinationInKernel(r, n, basis, t);
    var w := AddScaled(x, -1.0, c);
    forall i | 0 <= i < |r|
      ensures Dot(r[i], w) == 0.0
    {
      DotAddScaled(r[i], x, -1.0, c);
      TimesZero(-1.0, 0.0);
    }
    forall j | 0 <= j < n
      ensures w[j] == x[j] - c[j]
    {
      MinusOneLeft(c[j]);
    }
    forall j | 0 <= j < n && j !in pivots
      ensures w[j] == 0.0
    {
      FreeColumnListed(pivots, n, j);
      var k :| 0 <= k < |free| && free[k] == j;
      FreeEntry(r, n, pivots, basis, t, k);
    }
    KernelVanishes(r, n, pivots, w);
    forall j | 0 <= j < n
      ensures c[j] == x[j]
    {
      assert w[j] == 0.0;
    }
  }

  lemma MinusOneLeft(a: real)
    ensures Times(-1.0, a) == -a
  {
  }
}
