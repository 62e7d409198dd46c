/** Gauss-Jordan elimination. */
module RowReduction {
  /**
   Gauss-Jordan elimination: the reduction as a function of the matrix, what it achieves, and the
   in-place algorithm that computes it.
   */

  import opened LinearAlgebra

  // ---------- The reduction ----------

  /** The first row from `i` on with a nonzero entry in column `c`; the row count if there is none. */
  function FindPivot(m: Mat, n: nat, c: nat, i: nat): (p: nat)
    requires IsMat(m, n) && c < n && i <= |m|
    ensures i <= p <= |m|
    ensures p < |m| ==> m[p][c] != 0.0
    ensures forall k :: i <= k < p ==> m[k][c] == 0.0
    decreases |m| - i
  {
    if i == |m| || m[i][c] != 0.0 then i else FindPivot(m, n, c, i + 1)
  }

  /** Clears column `c` of row `i` with the help of row `r`. */
  function ClearEntry(m: Mat, n: nat, i: nat, r: nat, c: nat): (e: Mat)
    requires IsMat(m, n) && i < |m| && r < |m| && c < n
    ensures IsMat(e, n) && |e| == |m|
  {
    if i == r || m[i][c] == 0.0 then m else AddRow(m, n, i, -m[i][c], r)
  }

  /** Clears column `c` of the first `k` rows with the help of row `r`. */
  function Eliminate(m: Mat, n: nat, r: nat, c: nat, k: nat): (e: Mat)
    requires IsMat(m, n) && r < |m| && c < n && k <= |m|
    ensures IsMat(e, n) && |e| == |m|
  {
    if k == 0 then m else ClearEntry(Eliminate(m, n, r, c, k - 1), n, k - 1, r, c)
  }

  /** The matrix after its pivot row was brought up and normalised. */
  function Normalise(m: Mat, n: nat, piv: nat, r: nat, c: nat): (e: Mat)
    requires IsMat(m, n) && r < |m| && piv < |m| && c < n && m[piv][c] != 0.0
    ensures IsMat(e, n) && |e| == |m|
  {
    ScaleRow(SwapRows(m, piv, r), r, 1.0 / m[piv][c])
  }

  /** Brings the pivot row up, normalises it, and clears its column everywhere else. */
  function PivotStep(m: Mat, n: nat, piv: nat, r: nat, c: nat): (e: Mat)
    requires IsMat(m, n) && r < |m| && piv < |m| && c < n && m[piv][c] != 0.0
    ensures IsMat(e, n) && |e| == |m|
  {
    Eliminate(Normalise(m, n, piv, r, c), n, r, c, |m|)
  }

  function RrefFrom(m: Mat, n: nat, limit: nat, pivots: seq<nat>, c: nat): (res: (Mat, seq<nat>))
    requires IsMat(m, n) && c <= limit <= n && |pivots| <= |m|
    ensures IsMat(res.0, n) && |res.0| == |m|
    decreases limit - c
  {
    if c == limit || |pivots| == |m| then (m, pivots)
    else
      var r := |pivots|;
      var piv := FindPivot(m, n, c, r);
      if piv == |m| then RrefFrom(m, n, limit, pivots, c + 1)
      else RrefFrom(PivotStep(m, n, piv, r, c), n, limit, pivots + [c], c + 1)
  }

  /** The reduced matrix and its pivot columns, searched for among the first `limit` columns. */
  function Rref(m: Mat, n: nat, limit: nat): (res: (Mat, seq<nat>))
    requires IsMat(m, n) && limit <= n
    ensures IsMat(res.0, n) && |res.0| == |m|
  {
    RrefFrom(m, n, limit, [], 0)
  }

  // ---------- What it achieves ----------

  /** The first `c` columns are in reduced row echelon form with these pivots. */
  ghost predicate IsRref(m: Mat, n: nat, pivots: seq<nat>, c: nat)
    requires IsMat(m, n) && c <= n
  {
    && |pivots| <= |m|
    && (forall a, b :: 0 <= a < b < |pivots| ==> pivots[a] < pivots[b])
    && (forall a :: 0 <= a < |pivots| ==> pivots[a] < c)
    && (forall a, i :: 0 <= a < |pivots| && 0 <= i < |m| ==> m[i][pivots[a]] == if i == a then 1.0 else 0.0)
    && (forall a, j :: 0 <= a < |pivots| && 0 <= j < pivots[a] ==> m[a][j] == 0.0)
    && (forall i, j :: |pivots| <= i < |m| && 0 <= j < c ==> m[i][j] == 0.0)
  }

  /** Elimination subtracts, from every row but `r`, the multiple of row `r` that clears its column. */
  lemma {:induction false} EliminateRows(m: Mat, n: nat, r: nat, c: nat, k: nat, i: nat)
    requires IsMat(m, n) && r < |m| && c < n && k <= |m| && i < |m|
    ensures Eliminate(m, n, r, c, k)[i] == if i < k && i != r then AddScaled(m[i], -m[i][c], m[r]) else m[i]
  {
    if k > 0 {
      EliminateRows(m, n, r, c, k - 1, i);
      EliminateRows(m, n, r, c, k - 1, r);
      if m[i][c] == 0.0 {
        AddNothing(m[i], m[r], -m[i][c]);
      }
    }
  }

  lemma {:induction false} EliminateReduces(m: Mat, e0: Mat, n: nat, r: nat, c: nat, k: nat)
    requires IsMat(m, n) && IsMat(e0, n) && |e0| == |m| && RowReduces(m, e0, n)
    requires r < |m| && c < n && k <= |m|
    ensures RowReduces(m, Eliminate(e0, n, r, c, k), n)
    decreases k
  {
    if k > 0 {
      EliminateReduces(m, e0, n, r, c, k - 1);
      var e := Eliminate(e0, n, r, c, k - 1);
      if k - 1 != r {
        ReducesTo(m, e, n, Add(k - 1, -e[k - 1][c], r));
      }
    }
  }

  lemma AddNothing(a: Vec, b: Vec, f: real)
    requires |a| == |b| && f == 0.0
    ensures AddScaled(a, f, b) == a
  {
    forall i | 0 <= i < |a|
      ensures AddScaled(a, f, b)[i] == a[i]
    {
      TimesZero(f, b[i]);
    }
  }

  lemma NormaliseReduces(m: Mat, e: Mat, n: nat, piv: nat, r: nat, c: nat)
    requires IsMat(m, n) && IsMat(e, n) && |e| == |m| && RowReduces(m, e, n)
    requires r < |m| && piv < |m| && c < n && e[piv][c] != 0.0
    ensures RowReduces(m, Normalise(e, n, piv, r, c), n)
  {
    ReducesTo(m, e, n, Swap(piv, r));
    ReducesTo(m, SwapRows(e, piv, r), n, Scale(r, 1.0 / e[piv][c]));
  }

  lemma TimesInverse(p: real)
    requires p != 0.0
    ensures Times(1.0 / p, p) == 1.0
  {
  }

  lemma NormalisedRow(m: Mat, n: nat, pivots: seq<nat>, c: nat, piv: nat)
    requires IsMat(m, n) && c < n && IsRref(m, n, pivots, c)
    requires |pivots| <= piv < |m| && m[piv][c] != 0.0
    ensures var m1 := Normalise(m, n, piv, |pivots|, c);
            && m1[|pivots|][c] == 1.0
            && (forall i :: 0 <= i < |pivots| ==> m1[i] == m[i])
            && (forall i, j :: |pivots| <= i < |m| && 0 <= j < c ==> m1[i][j] == 0.0)
  {
    var r, f := |pivots|, 1.0 / m[piv][c];
    var m1 := Normalise(m, n, piv, r, c);
    assert m1[r] == ScaleVec(f, m[piv]);
    TimesInverse(m[piv][c]);
    forall i, j | r <= i < |m| && 0 <= j < c
      ensures m1[i][j] == 0.0
    {
      TimesZero(f, m[piv][j]);
    }
  }

  /** One pivot step extends the reduced form by one column. */
  lemma PivotStepReduces(m: Mat, n: nat, pivots: seq<nat>, c: nat, piv: nat)
    requires IsMat(m, n) && c < n && IsRref(m, n, pivots, c)
    requires |pivots| <= piv < |m| && m[piv][c] != 0.0
    ensures IsRref(PivotStep(m, n, piv, |pivots|, c), n, pivots + [c], c + 1)
  {
    var r := |pivots|;
    var m1 := Normalise(m, n, piv, r, c);
    NormalisedRow(m, n, pivots, c, piv);
    var e := PivotStep(m, n, piv, r, c);
    forall i | 0 <= i < |m|
      ensures e[i] == if i != r then AddScaled(m1[i], -m1[i][c], m1[r]) else m1[i]
    {
      EliminateRows(m1, n, r, c, |m|, i);
    }
    EliminatedEntries(m1, e, n, c, r);
    PivotsExtended(m1, e, n, pivots, c, r);
  }

  lemma EliminatedEntries(m1: Mat, e: Mat, n: nat, c: nat, r: nat)
    requires IsMat(m1, n) && IsMat(e, n) && |m1| == |e| && c < n && r < |e|
    requires forall i :: 0 <= i < |e| ==> e[i] == if i != r then AddScaled(m1[i], -m1[i][c], m1[r]) else m1[i]
    requires m1[r][c] == 1.0 && forall j :: 0 <= j < c ==> m1[r][j] == 0.0
    ensures forall i, j :: 0 <= i < |e| && 0 <= j < c ==> e[i][j] == m1[i][j]
    ensures forall i :: 0 <= i < |e| ==> e[i][c] == if i == r then 1.0 else 0.0
  {
    forall i, j | 0 <= i < |e| && 0 <= j < c
      ensures e[i][j] == m1[i][j]
    {
      TimesZero(-m1[i][c], m1[r][j]);
    }
    forall i | 0 <= i < |e|
      ensures e[i][c] == if i == r then 1.0 else 0.0
    {
      TimesOne(-m1[i][c]);
    }
  }

  /** The bookkeeping half of a pivot step: columns before `c` are unchanged, column `c` is a unit column. */
  lemma PivotsExtended(m1: Mat, e: Mat, n: nat, pivots: seq<nat>, c: nat, r: nat)
    requires IsMat(m1, n) && IsMat(e, n) && |m1| == |e| && c < n && r == |pivots| < |e|
    requires forall a, b :: 0 <= a < b < |pivots| ==> pivots[a] < pivots[b]
    requires forall a :: 0 <= a < |pivots| ==> pivots[a] < c
    requires forall a, i :: 0 <= a < |pivots| && 0 <= i < |m1| ==> m1[i][pivots[a]] == if i == a then 1.0 else 0.0
    requires forall a, j :: 0 <= a < |pivots| && 0 <= j < pivots[a] ==> m1[a][j] == 0.0
    requires forall i, j :: r <= i < |m1| && 0 <= j < c ==> m1[i][j] == 0.0
    requires forall i, j :: 0 <= i < |e| && 0 <= j < c ==> e[i][j] == m1[i][j]
    requires forall i :: 0 <= i < |e| ==> e[i][c] == if i == r then 1.0 else 0.0
    ensures IsRref(e, n, pivots + [c], c + 1)
  {
    var pivots' := pivots + [c];
    forall a, i | 0 <= a < |pivots'| && 0 <= i < |e|
      ensures e[i][pivots'[a]] == if i == a then 1.0 else 0.0
    {
      if a < r {
        assert e[i][pivots[a]] == m1[i][pivots[a]];
      }
    }
    forall a, j | 0 <= a < |pivots'| && 0 <= j < pivots'[a]
      ensures e[a][j] == 0.0
    {
      assert e[a][j] == m1[a][j];
    }
  }

  /** A column with a pivot. */
  lemma StepWithPivot(m: Mat, e: Mat, e': Mat, n: nat, pivots: seq<nat>, c: nat, piv: nat)
    requires IsMat(m, n) && IsMat(e, n) && |e| == |m| && RowReduces(m, e, n)
    requires c < n && IsRref(e, n, pivots, c)
    requires |pivots| <= piv < |e| && e[piv][c] != 0.0 && e' == PivotStep(e, n, piv, |pivots|, c)
    ensures IsRref(e', n, pivots + [c], c + 1) && RowReduces(m, e', n)
  {
    PivotStepReduces(e, n, pivots, c, piv);
    NormaliseReduces(m, e, n, piv, |pivots|, c);
    EliminateReduces(m, Normalise(e, n, piv, |pivots|, c), n, |pivots|, c, |m|);
  }

  /** A column without a pivot. */
  lemma StepWithoutPivot(e: Mat, n: nat, pivots: seq<nat>, c: nat)
    requires IsMat(e, n) && c < n && IsRref(e, n, pivots, c) && FindPivot(e, n, c, |pivots|) == |e|
    ensures IsRref(e, n, pivots, c + 1)
  {
  }

  lemma AllRowsPivotal(e: Mat, n: nat, pivots: seq<nat>, c: nat, limit: nat)
    requires IsMat(e, n) && c <= limit <= n && IsRref(e, n, pivots, c) && |pivots| == |e|
    ensures IsRref(e, n, pivots, limit)
  {
  }

  /** One turn of the column loop. */
  lemma RrefFromStep(e: Mat, n: nat, limit: nat, pivots: seq<nat>, c: nat)
    requires IsMat(e, n) && c < limit <= n && |pivots| < |e|
    ensures var piv := FindPivot(e, n, c, |pivots|);
            RrefFrom(e, n, limit, pivots, c) ==
            if piv == |e| then RrefFrom(e, n, limit, pivots, c + 1)
            else RrefFrom(PivotStep(e, n, piv, |pivots|, c), n, limit, pivots + [c], c + 1)
  {
  }

  /** What remains to be done from column `c` on yields `whole`; the quantifier keeps it from being unfolded. */
  ghost predicate Continues(e: Mat, n: nat, limit: nat, pivots: seq<nat>, c: nat, whole: (Mat, seq<nat>))
    requires IsMat(e, n) && c <= limit <= n && |pivots| <= |e|
  {
    exists p :: p == pivots && RrefFrom(e, n, limit, p, c) == whole
  }

  lemma ContinuesStart(m: Mat, n: nat, limit: nat)
    requires IsMat(m, n) && limit <= n
    ensures Continues(m, n, limit, [], 0, Rref(m, n, limit))
  {
  }

  lemma ContinuesDone(e: Mat, n: nat, limit: nat, pivots: seq<nat>, c: nat, whole: (Mat, seq<nat>))
    requires IsMat(e, n) && c <= limit <= n && |pivots| <= |e| && (c == limit || |pivots| == |e|)
    requires Continues(e, n, limit, pivots, c, whole)
    ensures whole == (e, pivots)
  {
  }

  lemma {:induction false} RrefFromCorrect(m: Mat, e: Mat, n: nat, limit: nat, pivots: seq<nat>, c: nat)
    requires IsMat(m, n) && IsMat(e, n) && |e| == |m| && RowReduces(m, e, n)
    requires c <= limit <= n && IsRref(e, n, pivots, c)
    ensures IsRref(RrefFrom(e, n, limit, pivots, c).0, n, RrefFrom(e, n, limit, pivots, c).1, limit)
    ensures RowReduces(m, RrefFrom(e, n, limit, pivots, c).0, n)
    decreases limit - c
  {
    if c == limit {
    } else if |pivots| == |m| {
      AllRowsPivotal(e, n, pivots, c, limit);
    } else {
      RrefFromStep(e, n, limit, pivots, c);
      var piv := FindPivot(e, n, c, |pivots|);
      if piv == |e| {
        StepWithoutPivot(e, n, pivots, c);
        RrefFromCorrect(m, e, n, limit, pivots, c + 1);
      } else {
        var e' := PivotStep(e, n, piv, |pivots|, c);
        StepWithPivot(m, e, e', n, pivots, c, piv);
        RrefFromCorrect(m, e', n, limit, pivots + [c], c + 1);
      }
    }
  }

  /**
   The reduction yields reduced row echelon form in its first `limit` columns by elementary row
   operations, so it keeps the kernel and keeps independent rows independent.
   */
  lemma RrefCorrect(m: Mat, n: nat, limit: nat)
    requires IsMat(m, n) && limit <= n
    ensures IsRref(Rref(m, n, limit).0, n, Rref(m, n, limit).1, limit)
    ensures RowReduces(m, Rref(m, n, limit).0, n)
  {
    ReducesSelf(m, n);
    RrefFromCorrect(m, m, n, limit, [], 0);
  }
}
