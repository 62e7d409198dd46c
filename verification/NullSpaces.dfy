/**
 What a null-space matrix decides, and why stacking it on independent rows gives a system with
 exactly one solution.
 */
module NullSpaces {
  import opened LinearAlgebra
  import opened RowReduction
  import opened LinearSystems

  ghost predicate Spanned(nm: Mat, n: nat, x: Vec)
    requires IsMat(nm, n)
  {
    exists t: Vec {:trigger Combine(t, nm, n)} :: |t| == |nm| && Combine(t, nm, n) == x
  }

  /** The rows of `nm` are a basis of the kernel of `a`. */
  ghost predicate IsNullMatrix(a: Mat, n: nat, nm: Mat)
    requires IsMat(a, n)
  {
    && IsMat(nm, n)
    && Independent(nm, n)
    && (forall k :: 0 <= k < |nm| ==> InKernel(a, nm[k]))
    && (forall x: Vec {:trigger InKernel(a, x)} {:trigger Spanned(nm, n, x)} ::
          |x| == n && InKernel(a, x) ==> Spanned(nm, n, x))
  }

  // ---------- From the reduced matrix to a basis ----------

  /** The vectors read off the reduced matrix are a basis of the kernel of the original one. */
  lemma BasisIsNullMatrix(a: Mat, n: nat, basis: Mat)
    requires IsMat(a, n) && IsMat(basis, n)
    requires IsRref(Rref(a, n, n).0, n, Rref(a, n, n).1, n)
    requires IsNullBasis(Rref(a, n, n).0, n, Rref(a, n, n).1, basis)
    ensures IsNullMatrix(a, n, basis)
  {
    var (r, pivots) := Rref(a, n, n);
    RrefCorrect(a, n, n);
    ReducesKeeps(a, r, n);
    BasisIndependent(r, n, pivots, basis);
    FreeColumnsAreFree(pivots, n);
    forall k | 0 <= k < |basis|
      ensures InKernel(a, basis[k])
    {
      BasisVectorInKernel(r, n, pivots, FreeColumns(pivots, n)[k], basis[k]);
    }
    forall x: Vec {:trigger InKernel(a, x)} | |x| == n && InKernel(a, x)
      ensures Spanned(basis, n, x)
    {
      BasisSpans(r, n, pivots, basis, x);
    }
  }

  /** The kernel has as many dimensions as there are columns without a pivot. */
  lemma BasisSize(r: Mat, n: nat, pivots: seq<nat>, basis: Mat)
    requires IsMat(r, n) && IsRref(r, n, pivots, n) && IsNullBasis(r, n, pivots, basis)
    ensures |basis| + |pivots| == n
  {
    FreeCount(pivots, n);
    PivotsBelowCount(pivots, n, |pivots|);
  }

  /** Independent rows all get a pivot. */
  lemma IndependentPivots(a: Mat, n: nat)
    requires IsMat(a, n) && Independent(a, n)
    ensures |Rref(a, n, n).1| == |a|
  {
    var (r, pivots) := Rref(a, n, n);
    RrefCorrect(a, n, n);
    ReducesKeeps(a, r, n);
    if |pivots| < |a| {
      ZeroRowDependent(r, n, |pivots|);
    }
  }

  lemma ZeroRowDependent(r: Mat, n: nat, k: nat)
    requires IsMat(r, n) && k < |r| && forall j :: 0 <= j < n ==> r[k][j] == 0.0
    ensures !Independent(r, n)
  {
    var y := Zeros(|r|)[k := 1.0];
    forall j | 0 <= j < n
      ensures Combine(y, r, n)[j] == 0.0
    {
      DotSingle(y, Column(r, j), k);
      TimesZero(1.0, 0.0);
    }
    assert Combine(y, r, n) == Zeros(n);
    assert y[k] != Zeros(|r|)[k];
  }

  // ---------- Scaling a basis ----------

  lemma ScaledNullMatrix(a: Mat, n: nat, nm: Mat, f: real, scaled: Mat)
    requires IsMat(a, n) && IsNullMatrix(a, n, nm) && f != 0.0
    requires |scaled| == |nm| && forall k :: 0 <= k < |nm| ==> scaled[k] == ScaleVec(f, nm[k])
    ensures IsNullMatrix(a, n, scaled)
  {
    forall k | 0 <= k < |nm|
      ensures InKernel(a, scaled[k])
    {
      ScaledInKernel(a, nm[k], f);
    }
    ScaledIndependent(nm, scaled, n, f);
    forall x: Vec {:trigger InKernel(a, x)} | |x| == n && InKernel(a, x)
      ensures Spanned(scaled, n, x)
    {
      ScaledSpans(nm, scaled, n, f, x);
    }
  }

  lemma ScaledIndependent(nm: Mat, scaled: Mat, n: nat, f: real)
    requires IsMat(nm, n) && IsMat(scaled, n) && f != 0.0 && Independent(nm, n)
    requires |scaled| == |nm| && forall k :: 0 <= k < |nm| ==> scaled[k] == ScaleVec(f, nm[k])
    ensures Independent(scaled, n)
  {
    forall y: Vec {:trigger Combine(y, scaled, n)} | |y| == |scaled| && Combine(y, scaled, n) == Zeros(n)
      ensures y == Zeros(|scaled|)
    {
      CombineScaled(nm, scaled, n, f, y);
      ScaledZero(f, y, nm, n);
    }
  }

  lemma ScaledSpans(nm: Mat, scaled: Mat, n: nat, f: real, x: Vec)
    requires IsMat(nm, n) && IsMat(scaled, n) && f != 0.0 && Spanned(nm, n, x)
    requires |scaled| == |nm| && forall k :: 0 <= k < |nm| ==> scaled[k] == ScaleVec(f, nm[k])
    ensures Spanned(scaled, n, x)
  {
    var t: Vec :| |t| == |nm| && Combine(t, nm, n) == x;
    var u := ScaleVec(1.0 / f, t);
    CombineScaled(nm, scaled, n, f, u);
    ScaleBack(f, t);
    assert Combine(u, scaled, n) == x;
  }

  lemma ScaledInKernel(a: Mat, v: Vec, f: real)
    requires IsMat(a, |v|) && InKernel(a, v)
    ensures InKernel(a, ScaleVec(f, v))
  {
    forall i | 0 <= i < |a|
      ensures Dot(a[i], ScaleVec(f, v)) == 0.0
    {
      DotComm(a[i], ScaleVec(f, v));
      DotScale(f, v, a[i]);
      DotComm(v, a[i]);
      TimesZero(f, 0.0);
    }
  }

  /** Scaling the rows scales the coefficients. */
  lemma CombineScaled(nm: Mat, scaled: Mat, n: nat, f: real, y: Vec)
    requires IsMat(nm, n) && IsMat(scaled, n) && |scaled| == |nm| == |y|
    requires forall k :: 0 <= k < |nm| ==> scaled[k] == ScaleVec(f, nm[k])
    ensures Combine(y, scaled, n) == Combine(ScaleVec(f, y), nm, n)
  {
    forall j | 0 <= j < n
      ensures Dot(y, Column(scaled, j)) == Dot(ScaleVec(f, y), Column(nm, j))
    {
      var col := Column(nm, j);
      assert Column(scaled, j) == ScaleVec(f, col);
      DotComm(y, ScaleVec(f, col));
      DotScale(f, col, y);
      DotComm(col, y);
      DotScale(f, y, col);
    }
  }

  lemma ScaledZero(f: real, y: Vec, nm: Mat, n: nat)
    requires IsMat(nm, n) && Independent(nm, n) && |y| == |nm| && f != 0.0
    requires Combine(ScaleVec(f, y), nm, n) == Zeros(n)
    ensures y == Zeros(|nm|)
  {
    UseIndependence(nm, n, ScaleVec(f, y));
    forall i | 0 <= i < |y|
      ensures y[i] == 0.0
    {
      assert ScaleVec(f, y)[i] == 0.0;
      TimesZero(f, y[i]);
    }
  }

  lemma ScaleBack(f: real, t: Vec)
    requires f != 0.0
    ensures ScaleVec(f, ScaleVec(1.0 / f, t)) == t
  {
    forall i | 0 <= i < |t|
      ensures Times(f, Times(1.0 / f, t[i])) == t[i]
    {
      TimesBack(f, t[i]);
    }
  }

  lemma TimesBack(f: real, a: real)
    requires f != 0.0
    ensures Times(f, Times(1.0 / f, a)) == a
  {
    var q := 1.0 / f;
    assert f * q == 1.0;
    assert f * (q * a) == (f * q) * a;
  }

  // ---------- What it decides ----------

  /** Vanishing under the null-space matrix is the same as being determined by the rows. */
  lemma NullMatrixDecides(a: Mat, n: nat, nm: Mat, v: Vec)
    requires IsMat(a, n) && IsNullMatrix(a, n, nm) && |v| == n
    ensures InKernel(nm, v) <==> Determined(a, v)
  {
    if InKernel(nm, v) {
      forall z: Vec {:trigger InKernel(a, z)} | |z| == n && InKernel(a, z)
        ensures Dot(v, z) == 0.0
      {
        assert Spanned(nm, n, z);
        SpannedVanishes(nm, n, v, z);
        DotComm(v, z);
      }
    }
    if Determined(a, v) {
      forall k | 0 <= k < |nm|
        ensures Dot(nm[k], v) == 0.0
      {
        DotComm(nm[k], v);
      }
    }
  }

  /** A vector orthogonal to all rows is orthogonal to what they span. */
  lemma SpannedVanishes(nm: Mat, n: nat, v: Vec, z: Vec)
    requires IsMat(nm, n) && Spanned(nm, n, z) && |v| == |z| == n && InKernel(nm, v)
    ensures Dot(z, v) == 0.0
  {
    var t: Vec :| |t| == |nm| && Combine(t, nm, n) == z;
    CombineDot(t, nm, n, v);
    DotVanishes(t, Apply(nm, v));
  }

  /** Only the zero vector vanishes on the rows and on their null space. */
  lemma StackedKernel(a: Mat, n: nat, nm: Mat, x: Vec)
    requires IsMat(a, n) && IsNullMatrix(a, n, nm) && |x| == n
    requires InKernel(nm + a, x)
    ensures x == Zeros(n)
  {
    forall i | 0 <= i < |a|
      ensures Dot(a[i], x) == 0.0
    {
      assert (nm + a)[|nm| + i] == a[i];
    }
    forall k | 0 <= k < |nm|
      ensures Dot(nm[k], x) == 0.0
    {
      assert (nm + a)[k] == nm[k];
    }
    assert Spanned(nm, n, x);
    SpannedVanishes(nm, n, x, x);
    DotSelf(x);
  }

  // ---------- Square systems with a trivial kernel ----------

  function LeftBlock(r: Mat, n: nat, w: nat): (l: Mat)
    requires IsMat(r, w) && n <= w
    ensures |l| == |r| && IsMat(l, n) && forall i :: 0 <= i < |r| ==> l[i] == r[i][..n]
  {
    seq(|r|, i requires 0 <= i < |r| => r[i][..n])
  }

  function BasisVector(r: Mat, n: nat, pivots: seq<nat>, f: nat): (v: Vec)
    requires IsMat(r, n) && |pivots| <= |r| && f < n
    requires forall a, b :: 0 <= a < b < |pivots| ==> pivots[a] < pivots[b]
    requires f !in pivots && forall a :: 0 <= a < |pivots| ==> pivots[a] < n
    ensures IsBasisVector(r, n, pivots, f, v)
  {
    seq(n, j requires 0 <= j < n =>
      if j == f then 1.0
      else if j in pivots then var a :| 0 <= a < |pivots| && pivots[a] == j; -r[a][f]
      else 0.0)
  }

  ghost predicate TrivialKernel(s: Mat, n: nat)
    requires IsMat(s, n)
  {
    forall x: Vec {:trigger InKernel(s, x)} :: |x| == n && InKernel(s, x) ==> x == Zeros(n)
  }

  lemma PaddedDot(row: Vec, n: nat, v: Vec, pad: Vec)
    requires |v| == n <= |row| && |pad| == |row| - n && forall i :: 0 <= i < |pad| ==> pad[i] == 0.0
    ensures Dot(row, v + pad) == Dot(row[..n], v)
  {
    assert row == row[..n] + row[n..];
    DotConcat(row[..n], row[n..], v, pad);
    DotVanishes(row[n..], pad);
  }

  /** Padding with zeros: kernel vectors of the left block are kernel vectors of the whole. */
  lemma PaddedKernel(r: Mat, n: nat, w: nat, v: Vec)
    requires IsMat(r, w) && n <= w && |v| == n
    ensures InKernel(LeftBlock(r, n, w), v) <==> InKernel(r, v + Zeros(w - n))
  {
    forall i | 0 <= i < |r|
      ensures Dot(r[i], v + Zeros(w - n)) == Dot(LeftBlock(r, n, w)[i], v)
    {
      PaddedDot(r[i], n, v, Zeros(w - n));
    }
  }

  lemma LeftBlockReduced(r: Mat, n: nat, w: nat, pivots: seq<nat>)
    requires IsMat(r, w) && n <= w && IsRref(r, w, pivots, n)
    ensures IsRref(LeftBlock(r, n, w), n, pivots, n)
  {
  }

  /** A column without a pivot yields a nonzero kernel vector. */
  lemma FreeColumnKernel(r: Mat, n: nat, w: nat, pivots: seq<nat>, f: nat) returns (v: Vec)
    requires IsMat(r, w) && n <= w && IsRref(r, w, pivots, n) && f < n && f !in pivots
    ensures |v| == n && v[f] == 1.0 && InKernel(r, v + Zeros(w - n))
  {
    LeftBlockReduced(r, n, w, pivots);
    v := BasisVector(LeftBlock(r, n, w), n, pivots, f);
    BasisVectorInKernel(LeftBlock(r, n, w), n, pivots, f, v);
    PaddedKernel(r, n, w, v);
  }

  lemma FreeColumnExists(pivots: seq<nat>, n: nat) returns (f: nat)
    requires forall a, b :: 0 <= a < b < |pivots| ==> pivots[a] < pivots[b]
    requires forall a :: 0 <= a < |pivots| ==> pivots[a] < n
    requires |pivots| != n
    ensures f < n && f !in pivots
  {
    FreeCount(pivots, n);
    PivotsBelowCount(pivots, n, |pivots|);
    FreeColumnsAreFree(pivots, n);
    f := FreeColumns(pivots, n)[0];
  }

  /** With a trivial kernel every coefficient column gets a pivot, whatever is appended. */
  lemma TrivialKernelPivots(s: Mat, n: nat, b: Mat, k: nat)
    requires IsMat(s, n) && IsMat(b, k) && |s| == |b| && TrivialKernel(s, n)
    ensures |Rref(RowJoin(s, b), n + k, n).1| == n
  {
    var j := RowJoin(s, b);
    var (r, pivots) := Rref(j, n + k, n);
    RrefCorrect(j, n + k, n);
    AllColumnsPivotal(s, j, r, n, n + k, pivots);
  }

  lemma AllColumnsPivotal(s: Mat, j: Mat, r: Mat, n: nat, w: nat, pivots: seq<nat>)
    requires IsMat(s, n) && IsMat(j, w) && IsMat(r, w) && n <= w && TrivialKernel(s, n)
    requires LeftBlock(j, n, w) == s && RowReduces(j, r, w) && IsRref(r, w, pivots, n)
    ensures |pivots| == n
  {
    if |pivots| != n {
      var f := FreeColumnExists(pivots, n);
      var v := FreeColumnKernel(r, n, w, pivots, f);
      ReducesKeeps(j, r, w);
      assert |v + Zeros(w - n)| == w;
      PaddedKernel(j, n, w, v);
      assert false;
    }
  }

  // ---------- Independent rows ----------

  /** Null-space rows stacked on independent rows make a square system that is always solvable. */
  lemma StackedPivots(a: Mat, n: nat, nm: Mat, b: Mat, k: nat)
    requires IsMat(a, n) && Independent(a, n) && IsNullMatrix(a, n, nm)
    requires |nm| + |Rref(a, n, n).1| == n
    requires IsMat(b, k) && |b| == |nm| + |a|
    ensures |nm + a| == n && TrivialKernel(nm + a, n)
    ensures |Rref(RowJoin(nm + a, b), n + k, n).1| == n
  {
    IndependentPivots(a, n);
    forall x: Vec {:trigger InKernel(nm + a, x)} | |x| == n && InKernel(nm + a, x)
      ensures x == Zeros(n)
    {
      StackedKernel(a, n, nm, x);
    }
    TrivialKernelPivots(nm + a, n, b, k);
  }

  /** At most one vector solves a system with a trivial kernel. */
  lemma TrivialKernelUnique(s: Mat, n: nat, b: Vec, x: Vec, y: Vec)
    requires IsMat(s, n) && TrivialKernel(s, n) && |b| == |s| && |x| == |y| == n
    requires Fits(s, b, x) && Fits(s, b, y)
    ensures x == y
  {
    DifferenceInKernel(s, b, x, y);
    var w := AddScaled(x, -1.0, y);
    forall i | 0 <= i < n
      ensures x[i] == y[i]
    {
      assert w[i] == 0.0;
      MinusOneLeft(y[i]);
    }
  }

  lemma FitsStacked(nm: Mat, a: Mat, n: nat, b: Vec, x: Vec)
    requires IsMat(nm, n) && IsMat(a, n) && |x| == n && |b| == |a|
    requires InKernel(nm, x) && Fits(a, b, x)
    ensures IsMat(nm + a, n) && Fits(nm + a, Zeros(|nm|) + b, x)
  {
    var s := nm + a;
    forall i | 0 <= i < |s|
      ensures |s[i]| == n && Dot(s[i], x) == (Zeros(|nm|) + b)[i]
    {
      assert s[i] == if i < |nm| then nm[i] else a[i - |nm|];
    }
  }

  /** At most one vector fits the rows and vanishes on their null space. */
  lemma StackedUnique(a: Mat, n: nat, nm: Mat, b: Vec, x: Vec, y: Vec)
    requires IsMat(a, n) && IsNullMatrix(a, n, nm) && |b| == |a| && |x| == |y| == n
    requires Fits(a, b, x) && InKernel(nm, x) && Fits(a, b, y) && InKernel(nm, y)
    ensures x == y
  {
    FitsStacked(nm, a, n, b, x);
    FitsStacked(nm, a, n, b, y);
    forall z: Vec {:trigger InKernel(nm + a, z)} | |z| == n && InKernel(nm + a, z)
      ensures z == Zeros(n)
    {
      StackedKernel(a, n, nm, z);
    }
    TrivialKernelUnique(nm + a, n, Zeros(|nm|) + b, x, y);
  }

  function NullBasis(r: Mat, n: nat, pivots: seq<nat>): (basis: Mat)
    requires IsMat(r, n) && |pivots| <= |r|
    requires forall a, b :: 0 <= a < b < |pivots| ==> pivots[a] < pivots[b]
    requires forall a :: 0 <= a < |pivots| ==> pivots[a] < n
    ensures IsMat(basis, n) && IsNullBasis(r, n, pivots, basis)
  {
    FreeColumnsAreFree(pivots, n);
    seq(|FreeColumns(pivots, n)|, k requires 0 <= k < |FreeColumns(pivots, n)| =>
      BasisVector(r, n, pivots, FreeColumns(pivots, n)[k]))
  }

  function AsColumn(b: Vec): (m: Mat)
    ensures |m| == |b| && IsMat(m, 1) && forall i :: 0 <= i < |b| ==> m[i][0] == b[i]
  {
    seq(|b|, i requires 0 <= i < |b| => [b[i]])
  }

  /** The entries a reduced joined matrix gives a solution. */
  function PivotVector(r: Mat, n: nat, pivots: seq<nat>): (x: Vec)
    requires IsMat(r, n + 1) && |pivots| <= |r|
    requires forall a, b :: 0 <= a < b < |pivots| ==> pivots[a] < pivots[b]
    requires forall a :: 0 <= a < |pivots| ==> pivots[a] < n
    ensures IsPivotSolution(r, n, 1, pivots, 0, x)
  {
    seq(n, j requires 0 <= j < n =>
      if j in pivots then var a :| 0 <= a < |pivots| && pivots[a] == j; r[a][n] else 0.0)
  }

  lemma KernelBasis(a: Mat, n: nat) returns (nm: Mat)
    requires IsMat(a, n)
    ensures IsNullMatrix(a, n, nm) && |nm| + |Rref(a, n, n).1| == n
  {
    var (r, pivots) := Rref(a, n, n);
    RrefCorrect(a, n, n);
    nm := NullBasis(r, n, pivots);
    BasisIsNullMatrix(a, n, nm);
    BasisSize(r, n, pivots, nm);
  }

  lemma StackedFits(nm: Mat, a: Mat, n: nat, b: Vec, x: Vec)
    requires IsMat(nm, n) && IsMat(a, n) && |b| == |a| && |x| == n
    requires Fits(nm + a, Zeros(|nm|) + b, x)
    ensures Fits(a, b, x) && InKernel(nm, x)
  {
    var s, full := nm + a, Zeros(|nm|) + b;
    forall i | 0 <= i < |a|
      ensures Dot(a[i], x) == b[i]
    {
      assert s[|nm| + i] == a[i] && full[|nm| + i] == b[i];
    }
    forall k | 0 <= k < |nm|
      ensures Dot(nm[k], x) == 0.0
    {
      assert s[k] == nm[k] && full[k] == 0.0;
    }
  }

  /** A system with independent rows has a solution for every right-hand side. */
  lemma IndependentSolvable(a: Mat, n: nat, b: Vec) returns (x: Vec)
    requires IsMat(a, n) && Independent(a, n) && |b| == |a|
    ensures |x| == n && Fits(a, b, x)
  {
    var nm := KernelBasis(a, n);
    var full := Zeros(|nm|) + b;
    StackedPivots(a, n, nm, AsColumn(full), 1);
    x := SquareSolution(nm + a, n, full);
    StackedFits(nm, a, n, b, x);
  }

  lemma SquareSolution(s: Mat, n: nat, b: Vec) returns (x: Vec)
    requires IsMat(s, n) && |b| == |s| == n
    requires |Rref(RowJoin(s, AsColumn(b)), n + 1, n).1| == n
    ensures |x| == n && Fits(s, b, x)
  {
    RrefCorrect(RowJoin(s, AsColumn(b)), n + 1, n);
    var (r, pivots) := Rref(RowJoin(s, AsColumn(b)), n + 1, n);
    x := ReducedSolution(s, n, b, r, pivots);
  }

  lemma ReducedSolution(s: Mat, n: nat, b: Vec, r: Mat, pivots: seq<nat>) returns (x: Vec)
    requires IsMat(s, n) && |b| == |s| == n && IsMat(r, n + 1) && |pivots| == |r|
    requires IsRref(r, n + 1, pivots, n) && RowReduces(RowJoin(s, AsColumn(b)), r, n + 1)
    ensures |x| == n && Fits(s, b, x)
  {
    x := PivotVector(r, n, pivots);
    PivotSolutionFits(r, n, 1, pivots, 0, x);
    ReducedProbe(s, n, AsColumn(b), 1, r, x, 0);
    assert Column(AsColumn(b), 0) == b;
  }
}
