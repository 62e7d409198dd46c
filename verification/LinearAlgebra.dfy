/**
 Vectors and matrices over the rationals (as reals): dot products, kernels, independence.
 */
module LinearAlgebra {

  type Vec = seq<real>

  /** A matrix as its rows. */
  type Mat = seq<Vec>

  predicate IsMat(m: Mat, n: nat) {
    forall i :: 0 <= i < |m| ==> |m[i]| == n
  }

  function Zeros(n: nat): (z: Vec)
    ensures |z| == n && forall i :: 0 <= i < n ==> z[i] == 0.0
  {
    seq(n, _ => 0.0)
  }

  /** A product, named so that equal factors make equal products by congruence alone. */
  function Times(a: real, b: real): real { a * b }

  lemma TimesDistributes(a: real, b: real, c: real)
    ensures Times(a, b + c) == Times(a, b) + Times(a, c)
    ensures Times(b + c, a) == Times(b, a) + Times(c, a)
  {
  }

  lemma TimesAssociates(a: real, b: real, c: real)
    ensures Times(Times(a, b), c) == Times(a, Times(b, c))
    ensures Times(a, Times(b, c)) == Times(b, Times(a, c))
  {
  }

  lemma TimesCommutes(a: real, b: real)
    ensures Times(a, b) == Times(b, a)
  {
  }

  lemma TimesOne(a: real)
    ensures Times(a, 1.0) == a
  {
  }

  lemma TimesZero(a: real, b: real)
    ensures Times(a, b) == 0.0 <==> a == 0.0 || b == 0.0
  {
  }

  function Dot(a: Vec, b: Vec): real
    requires |a| == |b|
  {
    if a == [] then 0.0 else Times(a[0], b[0]) + Dot(a[1..], b[1..])
  }

  /** `a + f * b`. */
  function AddScaled(a: Vec, f: real, b: Vec): (c: Vec)
    requires |a| == |b|
    ensures |c| == |a| && forall i :: 0 <= i < |a| ==> c[i] == a[i] + Times(f, b[i])
  {
    seq(|a|, i requires 0 <= i < |a| => a[i] + Times(f, b[i]))
  }

  function ScaleVec(f: real, a: Vec): (c: Vec)
    ensures |c| == |a| && forall i :: 0 <= i < |a| ==> c[i] == Times(f, a[i])
  {
    seq(|a|, i requires 0 <= i < |a| => Times(f, a[i]))
  }

  function Column(m: Mat, j: nat): (c: Vec)
    requires forall i :: 0 <= i < |m| ==> j < |m[i]|
    ensures |c| == |m| && forall i :: 0 <= i < |m| ==> c[i] == m[i][j]
  {
    seq(|m|, i requires 0 <= i < |m| => m[i][j])
  }

  /** The products of all rows with a vector. */
  function Apply(m: Mat, x: Vec): (c: Vec)
    requires IsMat(m, |x|)
    ensures |c| == |m| && forall i :: 0 <= i < |m| ==> c[i] == Dot(m[i], x)
  {
    seq(|m|, i requires 0 <= i < |m| => Dot(m[i], x))
  }

  /** The linear combination of the rows with the given coefficients. */
  function Combine(y: Vec, m: Mat, n: nat): (c: Vec)
    requires IsMat(m, n) && |y| == |m|
    ensures |c| == n && forall j :: 0 <= j < n ==> c[j] == Dot(y, Column(m, j))
  {
    seq(n, j requires 0 <= j < n => Dot(y, Column(m, j)))
  }

  ghost predicate InKernel(m: Mat, x: Vec)
    requires IsMat(m, |x|)
  {
    forall i :: 0 <= i < |m| ==> Dot(m[i], x) == 0.0
  }

  /** Only the zero combination of the rows is zero. */
  ghost predicate Independent(m: Mat, n: nat)
    requires IsMat(m, n)
  {
    forall y: Vec {:trigger Combine(y, m, n)} ::
      |y| == |m| && Combine(y, m, n) == Zeros(n) ==> y == Zeros(|m|)
  }

  // ---------- Dot products ----------

  lemma {:induction false} DotComm(a: Vec, b: Vec)
    requires |a| == |b|
    ensures Dot(a, b) == Dot(b, a)
  {
    if a != [] {
      DotComm(a[1..], b[1..]);
      TimesCommutes(a[0], b[0]);
    }
  }

  lemma {:induction false} DotAddScaled(a: Vec, x: Vec, f: real, y: Vec)
    requires |a| == |x| == |y|
    ensures Dot(a, AddScaled(x, f, y)) == Dot(a, x) + Times(f, Dot(a, y))
  {
    if a == [] {
      TimesZero(f, 0.0);
    } else {
      DotAddScaled(a[1..], x[1..], f, y[1..]);
      assert AddScaled(x, f, y)[1..] == AddScaled(x[1..], f, y[1..]);
      TimesDistributes(a[0], x[0], Times(f, y[0]));
      TimesAssociates(a[0], f, y[0]);
      TimesDistributes(f, Times(a[0], y[0]), Dot(a[1..], y[1..]));
    }
  }

  lemma DotAddScaledLeft(x: Vec, f: real, y: Vec, a: Vec)
    requires |a| == |x| == |y|
    ensures Dot(AddScaled(x, f, y), a) == Dot(x, a) + Times(f, Dot(y, a))
  {
    DotAddScaled(a, x, f, y);
    DotComm(AddScaled(x, f, y), a);
    DotComm(x, a);
    DotComm(y, a);
  }

  lemma {:induction false} DotScale(f: real, a: Vec, x: Vec)
    requires |a| == |x|
    ensures Dot(ScaleVec(f, a), x) == Times(f, Dot(a, x))
  {
    if a == [] {
      TimesZero(f, 0.0);
    } else {
      DotScale(f, a[1..], x[1..]);
      assert ScaleVec(f, a)[1..] == ScaleVec(f, a[1..]);
      TimesAssociates(f, a[0], x[0]);
      TimesDistributes(f, Times(a[0], x[0]), Dot(a[1..], x[1..]));
    }
  }

  lemma {:induction false} DotUpdate(a: Vec, x: Vec, k: nat, v: real)
    requires |a| == |x| && k < |x|
    ensures Dot(a, x[k := v]) == Dot(a, x) + Times(a[k], v - x[k])
  {
    if k == 0 {
      assert x[0 := v][1..] == x[1..];
      TimesDistributes(a[0], v - x[0], x[0]);
    } else {
      DotUpdate(a[1..], x[1..], k - 1, v);
      assert x[k := v][1..] == x[1..][k - 1 := v];
    }
  }

  lemma {:induction false} DotVanishes(a: Vec, b: Vec)
    requires |a| == |b| && forall i :: 0 <= i < |a| ==> a[i] == 0.0 || b[i] == 0.0
    ensures Dot(a, b) == 0.0
  {
    if a != [] {
      DotVanishes(a[1..], b[1..]);
      TimesZero(a[0], b[0]);
    }
  }

  /** A dot product with one non-vanishing term. */
  lemma {:induction false} DotSingle(a: Vec, b: Vec, k: nat)
    requires |a| == |b| && k < |a|
    requires forall i :: 0 <= i < |a| && i != k ==> a[i] == 0.0 || b[i] == 0.0
    ensures Dot(a, b) == Times(a[k], b[k])
  {
    if k == 0 {
      DotVanishes(a[1..], b[1..]);
    } else {
      DotSingle(a[1..], b[1..], k - 1);
      TimesZero(a[0], b[0]);
    }
  }

  /** A dot product with two non-vanishing terms. */
  lemma {:induction false} DotTwo(a: Vec, b: Vec, k: nat, l: nat)
    requires |a| == |b| && k < l < |a|
    requires forall i :: 0 <= i < |a| && i != k && i != l ==> a[i] == 0.0 || b[i] == 0.0
    ensures Dot(a, b) == Times(a[k], b[k]) + Times(a[l], b[l])
  {
    if k == 0 {
      DotSingle(a[1..], b[1..], l - 1);
    } else {
      DotTwo(a[1..], b[1..], k - 1, l - 1);
      TimesZero(a[0], b[0]);
    }
  }

  lemma {:induction false} DotConcat(a1: Vec, a2: Vec, b1: Vec, b2: Vec)
    requires |a1| == |b1| && |a2| == |b2|
    ensures Dot(a1 + a2, b1 + b2) == Dot(a1, b1) + Dot(a2, b2)
  {
    if a1 == [] {
      assert a1 + a2 == a2 && b1 + b2 == b2;
    } else {
      DotConcat(a1[1..], a2, b1[1..], b2);
      assert (a1 + a2)[1..] == a1[1..] + a2 && (b1 + b2)[1..] == b1[1..] + b2;
    }
  }

  lemma SquareSign(a: real)
    ensures Times(a, a) >= 0.0
    ensures Times(a, a) == 0.0 ==> a == 0.0
  {
    TimesZero(a, a);
  }

  /** Squares are not negative, and sum to zero only for the zero vector. */
  lemma {:induction false} DotSelf(x: Vec)
    ensures Dot(x, x) >= 0.0
    ensures Dot(x, x) == 0.0 ==> x == Zeros(|x|)
  {
    if x != [] {
      DotSelf(x[1..]);
      SquareSign(x[0]);
      assert x == [x[0]] + x[1..];
    }
  }

  /** Multiplying a combination of rows by a vector combines the products. */
  lemma {:induction false} CombineDot(y: Vec, m: Mat, n: nat, x: Vec)
    requires IsMat(m, n) && |y| == |m| && |x| == n
    ensures Dot(Combine(y, m, n), x) == Dot(y, Apply(m, x))
  {
    if m == [] {
      DotVanishes(Combine(y, m, n), x);
    } else {
      CombineDot(y[1..], m[1..], n, x);
      CombineStep(y, m, n);
      DotAddScaledLeft(Combine(y[1..], m[1..], n), y[0], m[0], x);
      assert Apply(m, x)[1..] == Apply(m[1..], x);
    }
  }

  lemma CombineStep(y: Vec, m: Mat, n: nat)
    requires IsMat(m, n) && |y| == |m| && m != []
    ensures Combine(y, m, n) == AddScaled(Combine(y[1..], m[1..], n), y[0], m[0])
  {
    forall j | 0 <= j < n
      ensures Combine(y, m, n)[j] == AddScaled(Combine(y[1..], m[1..], n), y[0], m[0])[j]
    {
      assert Column(m, j)[1..] == Column(m[1..], j);
    }
  }

  // ---------- Kernels and determined vectors ----------

  /** `v` takes one value on everything that agrees on the rows of `m`: it vanishes on the kernel. */
  ghost predicate Determined(m: Mat, v: Vec)
    requires IsMat(m, |v|)
  {
    forall z: Vec {:trigger InKernel(m, z)} {:trigger Dot(v, z)} ::
      |z| == |v| && InKernel(m, z) ==> Dot(v, z) == 0.0
  }

  /** `x` solves the system. */
  ghost predicate Fits(m: Mat, b: Vec, x: Vec)
    requires IsMat(m, |x|) && |b| == |m|
  {
    forall i :: 0 <= i < |m| ==> Dot(m[i], x) == b[i]
  }

  lemma DifferenceInKernel(m: Mat, b: Vec, x: Vec, x': Vec)
    requires |x| == |x'| && IsMat(m, |x|) && |b| == |m| && Fits(m, b, x) && Fits(m, b, x')
    ensures InKernel(m, AddScaled(x, -1.0, x'))
  {
    forall i | 0 <= i < |m|
      ensures Dot(m[i], AddScaled(x, -1.0, x')) == 0.0
    {
      DotAddScaled(m[i], x, -1.0, x');
    }
  }

  /** A determined vector has the same value under every solution. */
  lemma SolutionsAgree(m: Mat, b: Vec, x: Vec, x': Vec, v: Vec)
    requires |x| == |x'| == |v| && IsMat(m, |x|) && |b| == |m|
    requires Fits(m, b, x) && Fits(m, b, x') && Determined(m, v)
    ensures Dot(v, x) == Dot(v, x')
  {
    DifferenceInKernel(m, b, x, x');
    DotAddScaled(v, x, -1.0, x');
  }

  /** A vector is determined exactly when all solutions agree on it. */
  lemma DeterminedIffForced(m: Mat, b: Vec, x: Vec, v: Vec)
    requires |x| == |v| && IsMat(m, |x|) && |b| == |m| && Fits(m, b, x)
    ensures Determined(m, v) <==>
            forall w: Vec {:trigger Fits(m, b, w)} :: |w| == |x| && Fits(m, b, w) ==> Dot(v, w) == Dot(v, x)
  {
    if Determined(m, v) {
      forall w: Vec {:trigger Fits(m, b, w)} | |w| == |x| && Fits(m, b, w)
        ensures Dot(v, w) == Dot(v, x)
      {
        SolutionsAgree(m, b, w, x, v);
      }
    }
    if forall w: Vec {:trigger Fits(m, b, w)} :: |w| == |x| && Fits(m, b, w) ==> Dot(v, w) == Dot(v, x) {
      forall z: Vec {:trigger InKernel(m, z)} | |z| == |v| && InKernel(m, z)
        ensures Dot(v, z) == 0.0
      {
        var w := AddScaled(x, 1.0, z);
        forall i | 0 <= i < |m|
          ensures Dot(m[i], w) == b[i]
        {
          DotAddScaled(m[i], x, 1.0, z);
        }
        assert Fits(m, b, w);
        DotAddScaled(v, x, 1.0, z);
      }
    }
  }

  /** A row that does not vanish on some kernel vector extends an independent list. */
  lemma IndependentExtend(m: Mat, m': Mat, n: nat, v: Vec, z: Vec)
    requires IsMat(m, n) && IsMat(m', n) && |v| == |z| == n && m' == m + [v] && Independent(m, n)
    requires InKernel(m, z) && Dot(v, z) != 0.0
    ensures Independent(m', n)
  {
    forall y: Vec {:trigger Combine(y, m', n)} | |y| == |m'| && Combine(y, m', n) == Zeros(n)
      ensures y == Zeros(|m'|)
    {
      ExtendedCoefficients(m, m', n, v, z, y);
    }
  }

  lemma ExtendedCoefficients(m: Mat, m': Mat, n: nat, v: Vec, z: Vec, y: Vec)
    requires IsMat(m, n) && IsMat(m', n) && |v| == |z| == n && m' == m + [v] && Independent(m, n)
    requires InKernel(m, z) && Dot(v, z) != 0.0
    requires |y| == |m'| && Combine(y, m', n) == Zeros(n)
    ensures y == Zeros(|m'|)
  {
    LastCoefficientZero(m, n, v, z, y);
    DropLast(m, n, v, y);
    UseIndependence(m, n, y[..|m|]);
    ZerosExtend(y, |m|);
  }

  lemma ZerosExtend(y: Vec, k: nat)
    requires |y| == k + 1 && y[k] == 0.0 && y[..k] == Zeros(k)
    ensures y == Zeros(k + 1)
  {
    assert y == y[..k] + [y[k]];
  }

  lemma LastCoefficientZero(m: Mat, n: nat, v: Vec, z: Vec, y: Vec)
    requires IsMat(m + [v], n) && IsMat(m, n) && |v| == |z| == n && |y| == |m| + 1
    requires InKernel(m, z) && Dot(v, z) != 0.0
    requires Combine(y, m + [v], n) == Zeros(n)
    ensures y[|m|] == 0.0
  {
    var m' := m + [v];
    CombineDot(y, m', n, z);
    DotVanishes(Zeros(n), z);
    DotSingle(y, Apply(m', z), |m|);
    TimesZero(y[|m|], Dot(v, z));
  }

  /** A combination whose last coefficient is zero is a combination of the other rows. */
  lemma DropLast(m: Mat, n: nat, v: Vec, y: Vec)
    requires IsMat(m, n) && |v| == n && |y| == |m| + 1 && y[|m|] == 0.0
    requires IsMat(m + [v], n)
    ensures Combine(y, m + [v], n) == Combine(y[..|m|], m, n)
  {
    forall j | 0 <= j < n
      ensures Dot(y, Column(m + [v], j)) == Dot(y[..|m|], Column(m, j))
    {
      var front, last := y[..|m|], [y[|m|]];
      assert y == front + last;
      assert Column(m + [v], j) == Column(m, j) + [v[j]];
      DotConcat(front, last, Column(m, j), [v[j]]);
      DotVanishes(last, [v[j]]);
    }
  }

  // ---------- Row operations ----------

  function SwapRows(m: Mat, i: nat, j: nat): Mat
    requires i < |m| && j < |m|
  {
    m[i := m[j]][j := m[i]]
  }

  function ScaleRow(m: Mat, r: nat, f: real): Mat
    requires r < |m|
  {
    m[r := ScaleVec(f, m[r])]
  }

  function AddRow(m: Mat, n: nat, i: nat, f: real, r: nat): Mat
    requires IsMat(m, n) && i < |m| && r < |m|
  {
    m[i := AddScaled(m[i], f, m[r])]
  }

  /** An elementary row operation. */
  datatype RowOp = Swap(i: nat, j: nat) | Scale(r: nat, f: real) | Add(to: nat, factor: real, from: nat)
  {
    predicate Valid(rows: nat) {
      match this
      case Swap(i, j) => i < rows && j < rows
      case Scale(r, f) => r < rows && f != 0.0
      case Add(to, _, from) => to < rows && from < rows && to != from
    }
  }

  predicate AllOpsValid(ops: seq<RowOp>, rows: nat) {
    forall k :: 0 <= k < |ops| ==> ops[k].Valid(rows)
  }

  function ApplyOp(m: Mat, n: nat, op: RowOp): (e: Mat)
    requires IsMat(m, n) && op.Valid(|m|)
    ensures IsMat(e, n) && |e| == |m|
  {
    match op
    case Swap(i, j) => SwapRows(m, i, j)
    case Scale(r, f) => ScaleRow(m, r, f)
    case Add(to, factor, from) => AddRow(m, n, to, factor, from)
  }

  /** A run of elementary operations. */
  function RunOps(m: Mat, n: nat, ops: seq<RowOp>): (e: Mat)
    requires IsMat(m, n) && AllOpsValid(ops, |m|)
    ensures IsMat(e, n) && |e| == |m|
  {
    if ops == [] then m else ApplyOp(RunOps(m, n, ops[..|ops| - 1]), n, ops[|ops| - 1])
  }

  /** The second matrix comes from the first by elementary row operations. */
  ghost predicate RowReduces(m: Mat, m': Mat, n: nat)
    requires IsMat(m, n)
  {
    exists ops :: AllOpsValid(ops, |m|) && RunOps(m, n, ops) == m'
  }

  lemma ReducesTo(m: Mat, m': Mat, n: nat, op: RowOp)
    requires IsMat(m, n) && IsMat(m', n) && |m'| == |m| && RowReduces(m, m', n) && op.Valid(|m|)
    ensures RowReduces(m, ApplyOp(m', n, op), n)
  {
    var ops :| AllOpsValid(ops, |m|) && RunOps(m, n, ops) == m';
    var ops' := ops + [op];
    assert ops'[..|ops'| - 1] == ops;
    assert RunOps(m, n, ops') == ApplyOp(m', n, op);
  }

  lemma ReducesSelf(m: Mat, n: nat)
    requires IsMat(m, n)
    ensures RowReduces(m, m, n)
  {
    assert RunOps(m, n, []) == m;
  }

  lemma OpKernel(m: Mat, n: nat, op: RowOp, x: Vec)
    requires IsMat(m, n) && op.Valid(|m|) && |x| == n
    ensures InKernel(m, x) <==> InKernel(ApplyOp(m, n, op), x)
  {
    match op
    case Swap(i, j) => SwapKernel(m, n, i, j, x);
    case Scale(r, f) => ScaleKernel(m, n, r, f, x);
    case Add(to, factor, from) => AddRowKernel(m, n, to, factor, from, x);
  }

  lemma OpIndependent(m: Mat, n: nat, op: RowOp)
    requires IsMat(m, n) && op.Valid(|m|) && Independent(m, n)
    ensures Independent(ApplyOp(m, n, op), n)
  {
    match op
    case Swap(i, j) => SwapIndependent(m, SwapRows(m, i, j), n, i, j);
    case Scale(r, f) => ScaleIndependent(m, n, r, f);
    case Add(to, factor, from) => AddRowIndependent(m, n, to, factor, from);
  }

  lemma {:induction false} RunOpsKeep(m: Mat, n: nat, ops: seq<RowOp>, x: Vec)
    requires IsMat(m, n) && AllOpsValid(ops, |m|) && |x| == n
    ensures InKernel(m, x) <==> InKernel(RunOps(m, n, ops), x)
    ensures Independent(m, n) ==> Independent(RunOps(m, n, ops), n)
  {
    if ops != [] {
      var front, op := ops[..|ops| - 1], ops[|ops| - 1];
      RunOpsKeep(m, n, front, x);
      OpKernel(RunOps(m, n, front), n, op, x);
      if Independent(m, n) {
        OpIndependent(RunOps(m, n, front), n, op);
      }
    }
  }

  /** Row operations keep the kernel, and keep independent rows independent. */
  lemma ReducesKeeps(m: Mat, m': Mat, n: nat)
    requires IsMat(m, n) && RowReduces(m, m', n)
    ensures IsMat(m', n) && |m'| == |m|
    ensures forall x: Vec {:trigger InKernel(m, x)} {:trigger InKernel(m', x)} ::
              |x| == n ==> (InKernel(m, x) <==> InKernel(m', x))
    ensures Independent(m, n) ==> Independent(m', n)
  {
    var ops :| AllOpsValid(ops, |m|) && RunOps(m, n, ops) == m';
    forall x: Vec {:trigger InKernel(m, x)} {:trigger InKernel(m', x)} | |x| == n
      ensures InKernel(m, x) <==> InKernel(m', x)
    {
      RunOpsKeep(m, n, ops, x);
    }
    RunOpsKeep(m, n, ops, Zeros(n));
  }

  lemma UseIndependence(m: Mat, n: nat, y: Vec)
    requires IsMat(m, n) && Independent(m, n) && |y| == |m| && Combine(y, m, n) == Zeros(n)
    ensures y == Zeros(|m|)
  {
  }

  lemma SwapCoefficients(m: Mat, m': Mat, n: nat, i: nat, j: nat, y: Vec)
    requires IsMat(m, n) && IsMat(m', n) && i < |m| && j < |m| && m' == SwapRows(m, i, j) && Independent(m, n)
    requires |y| == |m'| && Combine(y, m', n) == Zeros(n)
    ensures y == Zeros(|m'|)
  {
    SwapCombine(m, n, i, j, y);
    UseIndependence(m, n, SwapVec(y, i, j));
    SwapVecTwice(y, i, j);
  }

  lemma SwapIndependent(m: Mat, m': Mat, n: nat, i: nat, j: nat)
    requires IsMat(m, n) && IsMat(m', n) && i < |m| && j < |m| && m' == SwapRows(m, i, j) && Independent(m, n)
    ensures Independent(m', n)
  {
    forall y: Vec {:trigger Combine(y, m', n)} | |y| == |m'| && Combine(y, m', n) == Zeros(n)
      ensures y == Zeros(|m'|)
    {
      SwapCoefficients(m, m', n, i, j, y);
    }
  }

  function SwapVec(y: Vec, i: nat, j: nat): (r: Vec)
    requires i < |y| && j < |y|
    ensures |r| == |y|
  {
    y[i := y[j]][j := y[i]]
  }

  lemma SwapVecTwice(y: Vec, i: nat, j: nat)
    requires i < |y| && j < |y|
    ensures SwapVec(SwapVec(y, i, j), i, j) == y
  {
  }

  lemma SwapKernel(m: Mat, n: nat, i: nat, j: nat, x: Vec)
    requires IsMat(m, n) && i < |m| && j < |m| && |x| == n
    ensures InKernel(m, x) <==> InKernel(SwapRows(m, i, j), x)
  {
    var m' := SwapRows(m, i, j);
    assert forall k :: 0 <= k < |m| ==> m'[k] == if k == j then m[i] else if k == i then m[j] else m[k];
    assert forall k :: 0 <= k < |m| ==> m[k] == if k == j then m'[i] else if k == i then m'[j] else m'[k];
  }

  lemma DotUpdateTwo(a: Vec, x: Vec, i: nat, j: nat, v: real, w: real)
    requires |a| == |x| && i < |x| && j < |x| && i != j
    ensures Dot(a, x[i := v][j := w]) == Dot(a, x) + Times(a[i], v - x[i]) + Times(a[j], w - x[j])
  {
    DotUpdate(a, x, i, v);
    DotUpdate(a, x[i := v], j, w);
    assert x[i := v][j] == x[j];
  }

  function SwapDelta(y1: real, y2: real, c1: real, c2: real): real {
    Times(y1, c2 - c1) + Times(y2, c1 - c2)
  }

  lemma SwapDeltaSymmetric(y1: real, y2: real, c1: real, c2: real)
    ensures SwapDelta(y1, y2, c1, c2) == SwapDelta(c1, c2, y1, y2)
  {
  }

  lemma SwapDotDelta(y: Vec, c: Vec, i: nat, j: nat, p: real, q: real)
    requires |y| == |c| && i < |c| && j < |c| && i != j
    requires p == c[i] && q == c[j]
    ensures Dot(y, c[i := q][j := p]) == Dot(y, c) + SwapDelta(y[i], y[j], p, q)
  {
    DotUpdateTwo(y, c, i, j, q, p);
  }

  lemma SwapDot(y: Vec, c: Vec, i: nat, j: nat)
    requires |y| == |c| && i < |c| && j < |c|
    ensures Dot(y, SwapVec(c, i, j)) == Dot(SwapVec(y, i, j), c)
  {
    DotComm(SwapVec(y, i, j), c);
    DotComm(y, c);
    if i == j {
      assert SwapVec(c, i, j) == c && SwapVec(y, i, j) == y;
    } else {
      SwapDotDelta(y, c, i, j, c[i], c[j]);
      SwapDotDelta(c, y, i, j, y[i], y[j]);
      SwapDeltaSymmetric(y[i], y[j], c[i], c[j]);
    }
  }

  lemma SwapCombine(m: Mat, n: nat, i: nat, j: nat, y: Vec)
    requires IsMat(m, n) && i < |m| && j < |m| && |y| == |m|
    ensures Combine(SwapVec(y, i, j), m, n) == Combine(y, SwapRows(m, i, j), n)
  {
    forall c: nat | c < n
      ensures Dot(SwapVec(y, i, j), Column(m, c)) == Dot(y, Column(SwapRows(m, i, j), c))
    {
      SwapDot(y, Column(m, c), i, j);
      assert Column(SwapRows(m, i, j), c) == SwapVec(Column(m, c), i, j);
    }
  }

  lemma ScaleZero(y: Vec, r: nat, f: real)
    requires r < |y| && f != 0.0 && y[r := Times(f, y[r])] == Zeros(|y|)
    ensures y == Zeros(|y|)
  {
    var y' := y[r := Times(f, y[r])];
    assert y'[r] == 0.0;
    TimesZero(f, y[r]);
    assert y == y'[r := y[r]];
  }

  lemma ScaleIndependent(m: Mat, n: nat, r: nat, f: real)
    requires IsMat(m, n) && r < |m| && f != 0.0 && Independent(m, n)
    ensures IsMat(ScaleRow(m, r, f), n) && Independent(ScaleRow(m, r, f), n)
  {
    forall y: Vec {:trigger Combine(y, ScaleRow(m, r, f), n)} |
      |y| == |m| && Combine(y, ScaleRow(m, r, f), n) == Zeros(n)
      ensures y == Zeros(|m|)
    {
      ScaleCombine(m, n, r, f, y);
      UseIndependence(m, n, y[r := Times(f, y[r])]);
      ScaleZero(y, r, f);
    }
  }

  lemma ScaleKernel(m: Mat, n: nat, r: nat, f: real, x: Vec)
    requires IsMat(m, n) && r < |m| && f != 0.0 && |x| == n
    ensures InKernel(m, x) <==> InKernel(ScaleRow(m, r, f), x)
  {
    var m' := ScaleRow(m, r, f);
    DotScale(f, m[r], x);
    TimesZero(f, Dot(m[r], x));
    assert m == m'[r := m[r]];
    assert InKernel(m', x) ==> Dot(m'[r], x) == 0.0;
  }

  lemma ScaleCombine(m: Mat, n: nat, r: nat, f: real, y: Vec)
    requires IsMat(m, n) && r < |m| && |y| == |m|
    ensures Combine(y[r := Times(f, y[r])], m, n) == Combine(y, ScaleRow(m, r, f), n)
  {
    forall c: nat | c < n
      ensures Dot(y[r := Times(f, y[r])], Column(m, c)) == Dot(y, Column(ScaleRow(m, r, f), c))
    {
      var col := Column(m, c);
      assert Column(ScaleRow(m, r, f), c) == col[r := Times(f, col[r])];
      DotUpdate(y, col, r, Times(f, col[r]));
      DotUpdate(col, y, r, Times(f, y[r]));
      DotComm(y, col);
      DotComm(y[r := Times(f, y[r])], col);
      ScaleArithmetic(y[r], col[r], f);
    }
  }

  lemma ScaleArithmetic(y: real, c: real, f: real)
    ensures Times(y, Times(f, c) - c) == Times(c, Times(f, y) - y)
  {
  }

  lemma AddZero(y: Vec, i: nat, f: real, r: nat)
    requires i < |y| && r < |y| && i != r && y[r := y[r] + Times(f, y[i])] == Zeros(|y|)
    ensures y == Zeros(|y|)
  {
    var y' := y[r := y[r] + Times(f, y[i])];
    assert y'[i] == 0.0 && y'[r] == 0.0;
    TimesZero(f, y[i]);
    assert y == y'[r := y[r]];
  }

  lemma AddRowIndependent(m: Mat, n: nat, i: nat, f: real, r: nat)
    requires IsMat(m, n) && i < |m| && r < |m| && i != r && Independent(m, n)
    ensures IsMat(AddRow(m, n, i, f, r), n) && Independent(AddRow(m, n, i, f, r), n)
  {
    forall y: Vec {:trigger Combine(y, AddRow(m, n, i, f, r), n)} |
      |y| == |m| && Combine(y, AddRow(m, n, i, f, r), n) == Zeros(n)
      ensures y == Zeros(|m|)
    {
      AddRowCombine(m, n, i, f, r, y);
      UseIndependence(m, n, y[r := y[r] + Times(f, y[i])]);
      AddZero(y, i, f, r);
    }
  }

  lemma AddRowKernel(m: Mat, n: nat, i: nat, f: real, r: nat, x: Vec)
    requires IsMat(m, n) && i < |m| && r < |m| && i != r && |x| == n
    ensures InKernel(m, x) <==> InKernel(AddRow(m, n, i, f, r), x)
  {
    var m' := AddRow(m, n, i, f, r);
    DotAddScaledLeft(m[i], f, m[r], x);
    TimesZero(f, Dot(m[r], x));
    assert m == m'[i := m[i]];
    assert m'[r] == m[r];
    assert InKernel(m', x) ==> Dot(m'[i], x) == 0.0 && Dot(m'[r], x) == 0.0;
    assert InKernel(m, x) ==> Dot(m[i], x) == 0.0 && Dot(m[r], x) == 0.0;
  }

  lemma AddRowCombine(m: Mat, n: nat, i: nat, f: real, r: nat, y: Vec)
    requires IsMat(m, n) && i < |m| && r < |m| && i != r && |y| == |m|
    ensures Combine(y[r := y[r] + Times(f, y[i])], m, n) == Combine(y, AddRow(m, n, i, f, r), n)
  {
    forall c: nat | c < n
      ensures Dot(y[r := y[r] + Times(f, y[i])], Column(m, c)) == Dot(y, Column(AddRow(m, n, i, f, r), c))
    {
      var col := Column(m, c);
      assert Column(AddRow(m, n, i, f, r), c) == col[i := col[i] + Times(f, col[r])];
      DotUpdate(y, col, i, col[i] + Times(f, col[r]));
      DotUpdate(col, y, r, y[r] + Times(f, y[i]));
      DotComm(y, col);
      DotComm(y[r := y[r] + Times(f, y[i])], col);
      TimesAssociates(y[i], f, col[r]);
      TimesAssociates(col[r], f, y[i]);
      TimesCommutes(y[i], col[r]);
      var a, b := Times(f, col[r]), Times(f, y[i]);
      assert (col[i] + a) - col[i] == a && (y[r] + b) - y[r] == b;
    }
  }
}
