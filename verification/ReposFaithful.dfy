/** Which states are read back unchanged: what is saved of an encoder, and what of that is read again. */
module ReposFaithful {
  import opened Rationals
  import opened RationalMatrix
  import opened ReposParser
  import opened ReposMatrices
  import opened ReposStates
  import opened ReposFile

  /** The columns of an encoder: its modifiers and its values. */
  function Total(s: State): nat {
    (if s.insRepos == [] then 0 else |s.insRepos[0].vals|) + |s.insModiSet|
  }

  /** The solution has an entry for every column. */
  predicate SolutionLongEnough(s: State) {
    s.pSol.Valid() && |s.pSol.rows| >= Total(s) && (Total(s) > 0 ==> s.pSol.cols > 0)
  }

  /** Only the numerators of the solution are printed, and only as many as there are columns. */
  ghost function PrintedSolution(s: State): (m: Matrix)
    ensures m.Valid() && m.Rational() && m.cols == 1
    ensures SolutionLongEnough(s) ==> |m.rows| == Total(s)
  {
    var rows :=
      if !SolutionLongEnough(s) then []
      else seq(Total(s), i requires 0 <= i < Total(s) => [Numerator(s.pSol.rows[i][0]) as real]);
    assert MatRational(rows) by {
      forall i | 0 <= i < |rows| {
        DenominatorOfInteger(Numerator(s.pSol.rows[i][0]));
      }
    }
    Matrix(1, rows)
  }

  /** What every encoder state meets. */
  ghost predicate StateFits(s: State) {
    && SolutionLongEnough(s)
    && FieldFits(InsModiSet(s.insModiSet)) && FieldFits(ErrRecords(s.errRecords)) && FieldFits(InsRecords(s.insRecords))
    && FieldFits(ValMatrix(s.valMatrix)) && FieldFits(ValNullMat(s.valNullMat)) && FieldFits(Rhs(s.rhs))
    && FieldFits(Arch(s.arch))
  }

  /** The printed fields, in their order, with `m` for the solution. */
  ghost function FieldsWith(s: State, m: Matrix): seq<Field> {
    [InsKey(s.insKey), InsRepos(s.insRepos), InsModiSet(s.insModiSet), ValMatrix(s.valMatrix), PSol(m),
     PSolFac(s.pSolFac), ValNullMat(s.valNullMat), InsRecords(s.insRecords), ErrRecords(s.errRecords), Rhs(s.rhs),
     Arch(s.arch)]
  }

  ghost function SavedWith(s: State, m: Matrix): Saved {
    Saved(FieldsWith(s, m), s.arch)
  }

  /** The state that is read back if the solution reads as `m`. */
  ghost function ShownWith(s: State, m: Matrix): State {
    s.(valMatrix := Shown(s.valMatrix), pSol := Shown(m), valNullMat := Shown(s.valNullMat), rhs := Shown(s.rhs))
  }

  /** The state that is read back. */
  ghost function ShownState(s: State): State {
    ShownWith(s, PrintedSolution(s))
  }

  lemma {:induction false} SavedReadsBack(s: State, m: Matrix)
    ensures ReadBack(SavedWith(s, m)) == ShownWith(s, m)
  {
    FieldsMakeState(ShownWith(s, m), FieldsWith(s, m));
  }

  lemma {:induction false} SavedReadable(s: State, m: Matrix)
    requires StateFits(s) && FieldFits(PSol(m))
    ensures Readable(SavedWith(s, m))
  {
    var fs := FieldsWith(s, m);
    forall i | 0 <= i < |fs|
      ensures FieldFits(fs[i])
    {
      FieldsOfFit(s, m, i);
    }
    assert fs[10].Arch?;
  }

  lemma {:induction false} FieldsOfFit(s: State, m: Matrix, i: nat)
    requires StateFits(s) && FieldFits(PSol(m)) && i < |FieldsWith(s, m)|
    ensures FieldFits(FieldsWith(s, m)[i])
  {
  }

  /** A matrix that is unset or has entries. */
  predicate Whole(m: Matrix) {
    m == EMPTY || (m.rows != [] && m.cols > 0)
  }

  /** The solution is what training leaves: unset without columns, else one integer per column. */
  ghost predicate SolutionWhole(s: State) {
    if Total(s) == 0 then s.pSol == EMPTY
    else
      && s.pSol.cols == 1 && |s.pSol.rows| == Total(s)
      && forall i :: 0 <= i < Total(s) ==> |s.pSol.rows[i]| == 1 && IsInteger(s.pSol.rows[i][0])
  }

  ghost predicate Faithful(s: State) {
    Whole(s.valMatrix) && Whole(s.valNullMat) && Whole(s.rhs) && SolutionWhole(s)
  }

  lemma {:induction false} IntegerShown(x: real)
    ensures IsInteger(x) <==> Numerator(x) as real == x
  {
    if IsInteger(x) {
      DenominatorOfInteger(x.Floor);
    }
  }

  lemma {:induction false} SolutionShown(s: State)
    requires SolutionLongEnough(s)
    ensures Shown(PrintedSolution(s)) == s.pSol <==> SolutionWhole(s)
  {
    var m := PrintedSolution(s);
    if Total(s) > 0 {
      if SolutionWhole(s) {
        forall i | 0 <= i < Total(s)
          ensures m.rows[i] == s.pSol.rows[i]
        {
          IntegerShown(s.pSol.rows[i][0]);
        }
        assert m.rows == s.pSol.rows;
      }
      if m == s.pSol {
        forall i | 0 <= i < Total(s)
          ensures |s.pSol.rows[i]| == 1 && IsInteger(s.pSol.rows[i][0])
        {
          IntegerShown(s.pSol.rows[i][0]);
          assert m.rows[i] == s.pSol.rows[i];
        }
      }
    }
  }

  /** Exactly the faithful states are read back unchanged. */
  lemma ShownIffFaithful(s: State)
    requires SolutionLongEnough(s)
    ensures ShownState(s) == s <==> Faithful(s)
  {
    SolutionShown(s);
  }

  // ---------- Repositories ----------

  ghost predicate StatesFit(xs: seq<(string, State)>) {
    forall i :: 0 <= i < |xs| ==> StateFits(xs[i].1)
  }

  /** The solutions that are printed. */
  ghost function Solutions(xs: seq<(string, State)>): (ms: seq<Matrix>)
    ensures |ms| == |xs| && forall i :: 0 <= i < |xs| ==> ms[i] == PrintedSolution(xs[i].1)
  {
    seq(|xs|, i requires 0 <= i < |xs| => PrintedSolution(xs[i].1))
  }

  /** What the text of a repository says if the solutions read as `ms`. */
  ghost function SavedDict(xs: seq<(string, State)>, ms: seq<Matrix>): (saved: seq<(string, Saved)>)
    requires |ms| == |xs|
    ensures |saved| == |xs| && forall i :: 0 <= i < |xs| ==> saved[i] == (xs[i].0, SavedWith(xs[i].1, ms[i]))
  {
    seq(|xs|, i requires 0 <= i < |xs| => (xs[i].0, SavedWith(xs[i].1, ms[i])))
  }

  /** The states that are then read back. */
  ghost function ShownDict(xs: seq<(string, State)>, ms: seq<Matrix>): (shown: seq<(string, State)>)
    requires |ms| == |xs|
    ensures |shown| == |xs| && forall i :: 0 <= i < |xs| ==> shown[i] == (xs[i].0, ShownWith(xs[i].1, ms[i]))
  {
    seq(|xs|, i requires 0 <= i < |xs| => (xs[i].0, ShownWith(xs[i].1, ms[i])))
  }

  ghost predicate SolutionsFit(ms: seq<Matrix>) {
    forall i :: 0 <= i < |ms| ==> FieldFits(PSol(ms[i]))
  }

  lemma {:induction false} SavedDictReadsBack(xs: seq<(string, State)>, ms: seq<Matrix>)
    requires StatesFit(xs) && KeysDistinct(xs) && |ms| == |xs| && SolutionsFit(ms)
    ensures DictFits(SavedDict(xs, ms)) && KeysDistinct(SavedDict(xs, ms))
    ensures ReadDict(SavedDict(xs, ms)) == ShownDict(xs, ms)
  {
    forall i | 0 <= i < |xs|
      ensures Readable(SavedDict(xs, ms)[i].1) && ReadBack(SavedDict(xs, ms)[i].1) == ShownWith(xs[i].1, ms[i])
    {
      SavedReadable(xs[i].1, ms[i]);
      SavedReadsBack(xs[i].1, ms[i]);
    }
  }

  ghost predicate DictFaithful(xs: seq<(string, State)>) {
    forall i :: 0 <= i < |xs| ==> Faithful(xs[i].1)
  }

  lemma {:induction false} DictShownIffFaithful(xs: seq<(string, State)>)
    requires StatesFit(xs)
    ensures ShownDict(xs, Solutions(xs)) == xs <==> DictFaithful(xs)
  {
    forall i | 0 <= i < |xs|
      ensures ShownDict(xs, Solutions(xs))[i] == xs[i] <==> Faithful(xs[i].1)
    {
      ShownIffFaithful(xs[i].1);
    }
  }
}
