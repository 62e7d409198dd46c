/** The instruction encoder. */
module InsAssembler {
  /**
   The encoder of one instruction key: it learns bit weights sample by sample and assembles new
   instructions with them.
   */

  import opened Wrappers
  import opened LinearAlgebra
  import opened Rationals
  import opened RationalMatrix
  import opened OrderedMaps
  import opened InsSamples
  import opened InsTraining

  /** Where a sample was seen. */
  datatype InsInfo = InsInfo(addr: nat, code: int, asmText: string)

  /** Whether an instruction can be assembled, and what is missing if not. */
  datatype AssembleCheck = Assemblable | UnknownModi | InsufficientBasis

  /** How often each key occurs among the modifiers. */
  function Counts(keys: seq<string>, modi: seq<string>): (v: Vec)
    ensures |v| == |keys| && forall i :: 0 <= i < |keys| ==> v[i] == multiset(modi)[keys[i]] as real
  {
    seq(|keys|, i requires 0 <= i < |keys| => multiset(modi)[keys[i]] as real)
  }

  /** Without repeated modifiers, counting them is flagging them. */
  lemma {:induction false} CountOfDistinct(modi: seq<string>, k: string)
    requires Distinct(modi)
    ensures multiset(modi)[k] == if k in modi then 1 else 0
  {
    if modi != [] {
      CountOfDistinct(modi[1..], k);
      assert modi == [modi[0]] + modi[1..];
    }
  }

  lemma CountsAreFlags(keys: seq<string>, modi: seq<string>)
    requires Distinct(modi)
    ensures Counts(keys, modi) == Flags(keys, modi)
  {
    forall i | 0 <= i < |keys|
      ensures Counts(keys, modi)[i] == Flags(keys, modi)[i]
    {
      CountOfDistinct(modi, keys[i]);
    }
  }

  /** One more modifier adds the weight of its column. */
  lemma CountOneMore(keys: seq<string>, modi: seq<string>, m: string, p: nat, weights: Vec)
    requires Distinct(keys) && p < |keys| && keys[p] == m && |weights| == |keys|
    ensures Dot(weights, Counts(keys, modi + [m])) == Dot(weights, Counts(keys, modi)) + weights[p]
  {
    var v := Counts(keys, modi);
    assert Counts(keys, modi + [m]) == v[p := v[p] + 1.0];
    DotUpdate(weights, v, p, v[p] + 1.0);
    TimesOne(weights[p]);
  }

  lemma CountNext(keys: seq<string>, modi: seq<string>, i: nat, p: nat, weights: Vec)
    requires Distinct(keys) && i < |modi| && p < |keys| && keys[p] == modi[i] && |weights| == |keys|
    ensures Dot(weights, Counts(keys, modi[..i + 1])) == Dot(weights, Counts(keys, modi[..i])) + weights[p]
  {
    assert modi[..i + 1] == modi[..i] + [modi[i]];
    CountOneMore(keys, modi[..i], modi[i], p, weights);
  }

  lemma NoCounts(keys: seq<string>, weights: Vec)
    requires |weights| == |keys|
    ensures Dot(weights, Counts(keys, [])) == 0.0
  {
    DotVanishes(weights, Counts(keys, []));
  }

  /** Integer division that truncates toward zero, as the integer type provides it. */
  function TruncatedQuotient(num: int, den: int): int
    requires den >= 1
  {
    if num >= 0 then num / den else -((-num) / den)
  }

  /** Division of exact rationals rounding toward minus infinity. */
  method FloorDiv(r: real) returns (q: int)
    requires IsRational(r)
    ensures q == r.Floor
  {
    var den := Denominator(r);
    var num := Times(r, den as real).Floor;
    q := TruncatedQuotient(num, den);
    var rem := num - q * den;
    if rem != 0 && num < 0 {
      q := q - 1;
    }
    FloorBounds(num, den, q);
    FloorOfQuotient(r, num, den, q);
  }

  lemma FloorBounds(num: int, den: int, q: int)
    requires den >= 1
    requires var t := TruncatedQuotient(num, den); q == if num - t * den != 0 && num < 0 then t - 1 else t
    ensures q * den <= num < (q + 1) * den
  {
    if num < 0 {
      var n := -num;
      assert n == den * (n / den) + n % den;
      assert TruncatedQuotient(num, den) * den == -(den * (n / den));
    }
  }

  lemma FloorOfQuotient(r: real, num: int, den: int, q: int)
    requires den >= 1 && Times(r, den as real) == num as real && q * den <= num < (q + 1) * den
    ensures q == r.Floor
  {
    assert q as real * den as real <= r * den as real;
    assert r * den as real < (q + 1) as real * den as real;
    CancelFactor(q as real, r, den as real);
    CancelFactor(r, (q + 1) as real, den as real);
  }

  lemma CancelFactor(a: real, b: real, d: real)
    requires d > 0.0
    ensures a * d <= b * d ==> a <= b
    ensures a * d < b * d ==> a < b
  {
  }

  lemma RationalQuotient(a: real, f: int)
    requires IsRational(a) && f >= 1
    ensures IsRational(a / f as real)
  {
    IntegerIsRational(f);
    RationalInverse(f as real);
    RationalProduct(a, 1.0 / f as real);
    assert Times(a, 1.0 / f as real) == a / f as real;
  }

  lemma NothingKnown(modi: seq<string>)
    ensures Known([], modi) ==> modi == []
  {
    if modi != [] {
      assert modi[0] !in [];
    }
  }

  ghost predicate Apart(a: object, b: object) {
    a != b
  }

  /** The entries after recording `info` under `key`. */
  ghost predicate Recorded(before: seq<(int, InsInfo)>, after: seq<(int, InsInfo)>, key: int, info: InsInfo) {
    || ((forall i :: 0 <= i < |before| ==> before[i].0 != key) && after == before + [(key, info)])
    || (exists i :: 0 <= i < |before| && before[i].0 == key && after == before[i := (key, info)])
  }

  ghost predicate AllRemembered(width: nat, e: Encoder, accepted: seq<Sample>) {
    forall i :: 0 <= i < |accepted| ==> Remembers(width, e, accepted[i])
  }

  /** A step that accepts its sample keeps all accepted samples remembered. */
  lemma AcceptedKept(width: nat, e: Encoder, s: Sample, o: Outcome, e': Encoder, accepted: seq<Sample>)
    requires e.Consistent(width) && Step(width, e, s, o, e') && Accepted(o) && AllRemembered(width, e, accepted)
    ensures e'.Consistent(width) && AllRemembered(width, e', accepted + [s])
  {
    StepConsistent(width, e, s, o, e');
    AcceptedRemembered(width, e, s, o, e');
    forall i | 0 <= i < |accepted|
      ensures Remembers(width, e', accepted[i])
    {
      StepRemembers(width, e, s, o, e', accepted[i]);
    }
  }

  /** How a sample whose code differs from the value is answered and recorded. */
  ghost predicate Conflicts(value: real, code: int, r: Outcome, info: InsInfo,
                            before: seq<(int, InsInfo)>, after: seq<(int, InsInfo)>) {
    && (r == KnownConflict || r == NewConflict)
    && (r == KnownConflict <==> IsInteger(value) && value.Floor - code in KeysOf(before))
    && (r == KnownConflict ==> after == before)
    && (r == NewConflict ==> Recorded(before, after, if IsInteger(value) then value.Floor - code else code, info))
  }

  /** The value of an instruction under the given explanation. */
  ghost function ValueUnder(e: Encoder, w: Vec, vals: seq<int>, modi: seq<string>): real {
    if |w| == |e.keys| + |vals| then Dot(SampleVec(e.keys, vals, modi), w) else 0.0
  }

  /** A forced sample that the explanation gives its code is reproduced. */
  lemma VerifyDecides(width: nat, e: Encoder, t: Weights, w: Vec, s: Sample)
    requires e.Consistent(width) && e.repos != [] && Trained(width, e, t, w)
    requires Known(e.keys, s.modi) && e.Forced(width, s.vals, s.modi)
    ensures e.Reproduces(width, s) <==> ValueUnder(e, w, s.vals, s.modi) == s.code as real
    ensures e.Reproduces(width, s) ==> Remembers(width, e, s)
  {
    OneExplanationDecides(width, e, w, s);
  }

  ghost predicate IntegerColumn(col: Mat) {
    IsMat(col, 1) && forall i :: 0 <= i < |col| ==> IsInteger(col[i][0])
  }

  /** The value of an instruction with every occurrence of a modifier counted. */
  ghost function CountedValue(e: Encoder, w: Vec, vals: seq<int>, modi: seq<string>): real {
    if |w| == |e.keys| + |vals| then Dot(Counts(e.keys, modi) + RealVec(vals), w) else 0.0
  }

  lemma CountedOnce(e: Encoder, w: Vec, vals: seq<int>, modi: seq<string>)
    requires Distinct(modi)
    ensures CountedValue(e, w, vals, modi) == ValueUnder(e, w, vals, modi)
  {
    CountsAreFlags(e.keys, modi);
  }

  /** The weighted values, from entry `valStart` of the weights on. */
  method SumValues(pSol: Mat, valStart: nat, vals: seq<int>) returns (sum: real)
    requires IntegerColumn(pSol) && valStart + |vals| == |pSol|
    ensures sum == Dot(Column(pSol, 0)[valStart..], RealVec(vals)) && IsRational(sum)
  {
    ghost var col := Column(pSol, 0)[valStart..];
    ghost var v := RealVec(vals);
    sum := 0.0;
    IntegerIsRational(0);
    for i := 0 to |vals|
      invariant sum == Dot(col[..i], v[..i]) && IsRational(sum)
    {
      DotPrefix(col, v, i);
      IntegerIsRational(pSol[valStart + i][0].Floor);
      IntegerIsRational(vals[i]);
      RationalProduct(pSol[valStart + i][0], vals[i] as real);
      RationalSum(sum, Times(pSol[valStart + i][0], vals[i] as real));
      sum := sum + Times(pSol[valStart + i][0], vals[i] as real);
    }
    assert col[..|vals|] == col && v[..|vals|] == v;
  }

  /** Values and modifiers together are the factor times the instruction's value. */
  lemma SumIsValue(pSol: Mat, fac: int, w: Vec, e: Encoder, vals: seq<int>, modi: seq<string>, a: real, b: real)
    requires IsMat(pSol, 1) && IsScaledColumn(pSol, fac, w) && |w| == |e.keys| + |vals|
    requires a == Dot(Column(pSol, 0)[|e.keys|..], RealVec(vals))
    requires b == Dot(Column(pSol, 0)[..|e.keys|], Counts(e.keys, modi))
    ensures (a + b) / fac as real == CountedValue(e, w, vals, modi)
  {
    var col := Column(pSol, 0);
    assert col == col[..|e.keys|] + col[|e.keys|..];
    DotConcat(col[..|e.keys|], col[|e.keys|..], Counts(e.keys, modi), RealVec(vals));
    WeightedValue(pSol, fac, w, Counts(e.keys, modi) + RealVec(vals));
  }

  /** The floor of a value given as a multiple of the common factor. */
  method FloorScaled(inscode: real, fac: int) returns (code: int)
    requires IsRational(inscode) && fac >= 1
    ensures code == (inscode / fac as real).Floor
  {
    if fac == 1 {
      code := FloorDiv(inscode);
    } else {
      RationalQuotient(inscode, fac);
      code := FloorDiv(inscode / fac as real);
    }
  }

  class CuInsAssembler {
    const insKey: string

    /** The number of values every instance of this key has. */
    ghost const width: nat

    /** The modifier columns: every modifier seen, with its column number. */
    const insModiSet: OrderedMap<string, nat>

    var insRepos: seq<Sample>
    var valMatrix: Matrix
    var rhs: Matrix

    /** Null-space matrix, integer weights and their common factor. */
    var weights: Weights

    var insRecords: seq<InsInfo>
    const errRecords: OrderedMap<int, InsInfo>

    /** The weights before scaling. */
    ghost var solution: Vec

    /** Every sample that was ever accepted. */
    ghost var accepted: seq<Sample>

    ghost function State(): Encoder
      reads this, insModiSet
    {
      Encoder(insModiSet.Keys(), insRepos)
    }

    /** Columns are numbered in the order their modifiers came up. */
    ghost predicate ColumnsNumbered()
      reads insModiSet
    {
      forall i :: 0 <= i < |insModiSet.entries| ==> insModiSet.entries[i].1 == i
    }

    /** The matrices belong to the samples; nothing is computed while there are none. */
    ghost predicate Built()
      reads this, insModiSet
    {
      && (insRepos == [] ==> weights == UNTRAINED && valMatrix == EMPTY && rhs == EMPTY)
      && (insRepos != [] ==>
            && Trained(width, State(), weights, solution)
            && valMatrix == Matrix(|State().keys| + width, State().Rows())
            && rhs.Valid() && rhs.cols == 1 && Column(rhs.rows, 0) == State().Codes())
    }

    ghost predicate Valid()
      reads this, insModiSet, errRecords
    {
      && Apart(insModiSet, errRecords) && insModiSet.Valid() && errRecords.Valid()
      && ColumnsNumbered() && State().Consistent(width) && Built()
      && AllRemembered(width, State(), accepted)
    }

    constructor (insKey: string, ghost width: nat)
      ensures Valid() && State() == Encoder([], []) && accepted == [] && this.width == width
      ensures insRecords == [] && errRecords.entries == []
    {
      this.insKey := insKey;
      this.width := width;
      var modiSet := new OrderedMap<string, nat>();
      var errs := new OrderedMap<int, InsInfo>();
      insModiSet := modiSet;
      errRecords := errs;
      insRepos := [];
      valMatrix := EMPTY;
      rhs := EMPTY;
      weights := UNTRAINED;
      insRecords := [];
      solution := [];
      accepted := [];
      new;
      EmptyConsistent(width);
    }

    /** The column of a modifier, or -1. */
    method IndexOfModi(modi: string) returns (idx: int)
      requires insModiSet.Valid() && ColumnsNumbered()
      ensures idx == -1 <==> modi !in insModiSet.Keys()
      ensures idx != -1 ==> 0 <= idx < |insModiSet.Keys()| && insModiSet.Keys()[idx] == modi
    {
      var pos := insModiSet.Find(modi);
      if pos.None? {
        return -1;
      }
      return insModiSet.entries[pos.value].1;
    }

    /** Whether every modifier has a column. */
    method AllModiKnown(modi: seq<string>) returns (known: bool)
      requires insModiSet.Valid() && ColumnsNumbered()
      ensures known <==> Known(insModiSet.Keys(), modi)
    {
      for i := 0 to |modi|
        invariant forall j :: 0 <= j < i ==> modi[j] in insModiSet.Keys()
      {
        var idx := IndexOfModi(modi[i]);
        if idx < 0 {
          return false;
        }
      }
      return true;
    }

    /** Gives every new modifier the next column. */
    method ExpandModiSet(modi: seq<string>) returns (updated: bool)
      requires insModiSet.Valid() && ColumnsNumbered() && Distinct(insModiSet.Keys())
      modifies insModiSet
      ensures insModiSet.Valid() && ColumnsNumbered()
      ensures insModiSet.Keys() == Expand(old(insModiSet.Keys()), modi)
      ensures updated <==> !Known(old(insModiSet.Keys()), modi)
    {
      ghost var keys := insModiSet.Keys();
      updated := false;
      assert modi[0..] == modi;
      for i := 0 to |modi|
        invariant insModiSet.Valid() && ColumnsNumbered()
        invariant Expand(insModiSet.Keys(), modi[i..]) == Expand(keys, modi)
        invariant |keys| <= |insModiSet.Keys()| && insModiSet.Keys()[..|keys|] == keys
        invariant updated <==> |insModiSet.Keys()| > |keys|
      {
        ExpandStep(insModiSet.Keys(), modi, i);
        var inserted := insModiSet.Emplace(modi[i], |insModiSet.entries|);
        if inserted {
          updated := true;
        }
      }
      ExpandGrowsIffUnknown(keys, modi);
    }

    /** Modifier flags in column order, then the values. */
    method BuildInsValVec(vals: seq<int>, modi: seq<string>) returns (v: Vec)
      ensures v == SampleVec(insModiSet.Keys(), vals, modi)
    {
      v := [];
      for i := 0 to |insModiSet.entries|
        invariant v == Flags(insModiSet.Keys(), modi)[..i]
      {
        v := v + [if insModiSet.entries[i].0 in modi then 1.0 else 0.0];
      }
      for i := 0 to |vals|
        invariant v == Flags(insModiSet.Keys(), modi) + RealVec(vals)[..i]
      {
        v := v + [vals[i] as real];
      }
      assert RealVec(vals)[..|vals|] == RealVec(vals);
    }

    /** Recomputes all matrices from the samples; never fails. */
    method BuildMatrix()
      requires insModiSet.Valid() && State().Consistent(width) &&
               (insRepos == [] ==> weights == UNTRAINED && valMatrix == EMPTY && rhs == EMPTY)
      modifies this`valMatrix, this`rhs, this`weights, this`solution
      ensures Built()
    {
      if |insRepos| == 0 {
        return;
      }
      ghost var e := State();
      var rows: Mat := [];
      var codes: Vec := [];
      for i := 0 to |insRepos|
        invariant rows == e.Rows()[..i] && codes == e.Codes()[..i]
      {
        var row := BuildInsValVec(insRepos[i].vals, insRepos[i].modi);
        rows := rows + [row];
        codes := codes + [insRepos[i].code as real];
      }
      assert rows == e.Rows() && codes == e.Codes();
      var a, b, t;
      ghost var w;
      a, b, t, w := Train(width, e, rows, codes);
      valMatrix, rhs, weights := a, b, t;
      solution := w;
    }

    /** Whether the samples force the value of an instruction with known modifiers. */
    method IsForced(vals: seq<int>, modi: seq<string>) returns (forced: bool, insvec: Matrix)
      requires Valid() && |vals| == width && Known(insModiSet.Keys(), modi)
      ensures insvec.Valid() && insvec.cols == 1 && |insvec.rows| == |insModiSet.Keys()| + |vals|
      ensures Column(insvec.rows, 0) == SampleVec(insModiSet.Keys(), vals, modi)
      ensures insRepos != [] ==> (forced <==> State().Forced(width, vals, modi))
      ensures insRepos == [] ==> forced
    {
      var v := BuildInsValVec(vals, modi);
      insvec := ColumnVector(v);
      if |insRepos| != 0 {
        TrainedNull(width, State(), weights, solution);
        VanishesIffForced(width, State(), weights.nullMat.rows, vals, modi);
      }
      forced := VanishesUnder(weights.nullMat, insvec);
    }

    /**
     Whether an instruction can be assembled. Once there are samples, it can exactly when its
     modifiers are known and all explanations of the samples give it the same value. Before that,
     only an instruction without modifiers is let through.
     */
    method CanAssemble(vals: seq<int>, modi: seq<string>) returns (check: AssembleCheck)
      requires Valid() && |vals| == width
      ensures check == UnknownModi <==> !Known(insModiSet.Keys(), modi)
      ensures insRepos != [] && Known(insModiSet.Keys(), modi) ==>
                (check == Assemblable <==>
                 forall u: Vec {:trigger State().Explains(width, u)} :: State().Explains(width, u) ==>
                   Dot(SampleVec(State().keys, vals, modi), u) == Dot(SampleVec(State().keys, vals, modi), solution))
      ensures insRepos == [] ==> (check == Assemblable <==> modi == [])
    {
      var known := AllModiKnown(modi);
      if !known {
        return UnknownModi;
      }
      var forced, insvec := IsForced(vals, modi);
      if |insRepos| != 0 {
        TrainedColumn(width, State(), weights, solution);
        ForcedMeansOneValue(width, State(), solution, vals, modi);
      } else {
        NothingKnown(modi);
      }
      return if forced then Assemblable else InsufficientBasis;
    }

    /** Takes on a sample: new matrices, and everything accepted so far is still reproduced. */
    method TakeOn(s: Sample, o: Outcome, ghost before: Encoder)
      requires insModiSet.Valid() && errRecords.Valid() && Apart(insModiSet, errRecords) && ColumnsNumbered()
      requires State() == Encoder(insModiSet.Keys(), before.repos) && before.Consistent(width)
      requires o == NewModi || o == NewVals
      requires Step(width, before, s, o, Encoder(insModiSet.Keys(), before.repos + [s]))
      requires AllRemembered(width, before, accepted)
      modifies this`insRepos, this`valMatrix, this`rhs, this`weights, this`solution, this`accepted
      ensures Valid() && State() == Encoder(old(insModiSet.Keys()), before.repos + [s])
      ensures accepted == old(accepted) + [s]
    {
      AcceptedKept(width, before, s, o, Encoder(insModiSet.Keys(), before.repos + [s]), accepted);
      insRepos := insRepos + [s];
      BuildMatrix();
      accepted := accepted + [s];
    }

    /** The value the weights give an instruction. */
    method ValueOf(insvec: Matrix, ghost vals: seq<int>, ghost modi: seq<string>) returns (value: real)
      requires Valid() && insRepos != [] && |vals| == width
      requires insvec.Valid() && insvec.cols == 1
      requires Column(insvec.rows, 0) == SampleVec(insModiSet.Keys(), vals, modi)
      ensures value == ValueUnder(State(), solution, vals, modi)
    {
      TrainedColumn(width, State(), weights, solution);
      WeightedValue(weights.pSol.rows, weights.fac, solution, SampleVec(insModiSet.Keys(), vals, modi));
      var dot := DotOf(weights.pSol, insvec);
      value := dot.value / weights.fac as real;
    }

    /** Records a sample whose code differs from the value: by difference, or by code if the value is no integer. */
    method RecordConflict(value: real, code: int, insInfo: InsInfo) returns (r: Outcome)
      requires errRecords.Valid()
      modifies errRecords
      ensures errRecords.Valid()
      ensures Conflicts(value, code, r, insInfo, old(errRecords.entries), errRecords.entries)
    {
      var key := code;
      if IsInteger(value) {
        key := value.Floor - code;
        var known := errRecords.Find(key);
        if known.Some? {
          return KnownConflict;
        }
      }
      assert forall i :: 0 <= i < |errRecords.entries| ==> errRecords.entries[i].0 == errRecords.Keys()[i];
      errRecords.InsertOrAssign(key, insInfo);
      return NewConflict;
    }

    /** Compares a forced sample with the weights, and records a conflict. */
    method Verify(s: Sample, insvec: Matrix, insInfo: InsInfo) returns (r: Outcome)
      requires Valid() && insRepos != [] && |s.vals| == width && Known(insModiSet.Keys(), s.modi)
      requires State().Forced(width, s.vals, s.modi)
      requires insvec.Valid() && insvec.cols == 1 &&
               Column(insvec.rows, 0) == SampleVec(insModiSet.Keys(), s.vals, s.modi)
      modifies errRecords, this`accepted
      ensures Valid()
      ensures r == Verified <==> State().Reproduces(width, s)
      ensures accepted == old(accepted) + if r == Verified then [s] else []
      ensures if r == Verified then errRecords.entries == old(errRecords.entries)
              else Conflicts(ValueUnder(State(), solution, s.vals, s.modi), s.code, r, insInfo,
                             old(errRecords.entries), errRecords.entries)
    {
      var inscode := ValueOf(insvec, s.vals, s.modi);
      VerifyDecides(width, State(), weights, solution, s);
      if inscode == s.code as real {
        accepted := accepted + [s];
        return Verified;
      }
      r := RecordConflict(inscode, s.code, insInfo);
    }

    /** Takes on a sample with known modifiers whose value is not forced. */
    method PushNewVals(s: Sample, insInfo: InsInfo)
      requires Valid() && |s.vals| == width && Known(insModiSet.Keys(), s.modi)
      requires insRepos != [] && !State().Forced(width, s.vals, s.modi)
      modifies this
      ensures Valid() && Step(width, old(State()), s, NewVals, State())
      ensures accepted == old(accepted) + [s] && insRecords == old(insRecords) + [insInfo]
    {
      ghost var before := State();
      insRecords := insRecords + [insInfo];
      TakeOn(s, NewVals, before);
    }

    /** A sample with unseen modifiers: new columns first. */
    method PushNewModi(s: Sample, insInfo: InsInfo)
      requires Valid() && |s.vals| == width && !Known(insModiSet.Keys(), s.modi)
      modifies this, insModiSet
      ensures Valid() && Step(width, old(State()), s, NewModi, State())
      ensures accepted == old(accepted) + [s] && insRecords == old(insRecords) + [insInfo]
    {
      ghost var before := State();
      var updated := ExpandModiSet(s.modi);
      TakeOn(s, NewModi, before);
      insRecords := insRecords + [insInfo];
    }

    /**
     Offers one sample. It is one step of the encoder, except that a first sample without modifiers
     fails; samples accepted before, and this one if it is accepted, are reproduced afterwards.
     */
    method Push(vals: seq<int>, modi: seq<string>, code: int, insInfo: InsInfo)
      returns (r: Result<Outcome, MatrixError>)
      requires Valid() && |vals| == width
      modifies this, insModiSet, errRecords
      ensures Valid()
      ensures r.Failure? <==> old(insRepos) == [] && modi == []
      ensures r.Failure? ==> State() == old(State()) && r.error == ShapeMismatch
      ensures r.Success? ==> Step(width, old(State()), Sample(vals, modi, code), r.value, State())
      ensures accepted == old(accepted) + if r.Success? && Accepted(r.value) then [Sample(vals, modi, code)] else []
      ensures insRecords == old(insRecords) + if r == Success(NewModi) || r == Success(NewVals) then [insInfo] else []
      ensures if r.Success? && !Accepted(r.value)
              then Conflicts(old(ValueUnder(State(), solution, vals, modi)), code, r.value, insInfo,
                             old(errRecords.entries), errRecords.entries)
              else errRecords.entries == old(errRecords.entries)
    {
      var s := Sample(vals, modi, code);
      var known := AllModiKnown(modi);
      if !known {
        PushNewModi(s, insInfo);
        return Success(NewModi);
      }
      var forced, insvec := IsForced(vals, modi);
      if !forced {
        PushNewVals(s, insInfo);
        return Success(NewVals);
      }
      if |insRepos| == 0 {
        NothingKnown(modi);
        var dot := DotOf(weights.pSol, insvec);
        return Failure(dot.error);
      }
      var outcome := Verify(s, insvec, insInfo);
      return Success(outcome);
    }

    /** The weights of the modifiers, each occurrence counted. */
    method SumModifiers(pSol: Mat, modi: seq<string>) returns (sum: real)
      requires insModiSet.Valid() && ColumnsNumbered() && Distinct(insModiSet.Keys()) && Known(insModiSet.Keys(), modi)
      requires IntegerColumn(pSol) && |insModiSet.Keys()| <= |pSol|
      ensures sum == Dot(Column(pSol, 0)[..|insModiSet.Keys()|], Counts(insModiSet.Keys(), modi)) && IsRational(sum)
    {
      ghost var keys := insModiSet.Keys();
      ghost var col := Column(pSol, 0)[..|keys|];
      sum := 0.0;
      NoCounts(keys, col);
      IntegerIsRational(0);
      for i := 0 to |modi|
        invariant sum == Dot(col, Counts(keys, modi[..i])) && IsRational(sum)
      {
        var idx := IndexOfModi(modi[i]);
        CountNext(keys, modi, i, idx, col);
        IntegerIsRational(pSol[idx][0].Floor);
        RationalSum(sum, pSol[idx][0]);
        sum := sum + pSol[idx][0];
      }
      assert modi[..|modi|] == modi;
    }

    /**
     Assembles an instruction: the floor of its value, each modifier counted as often as it occurs.
     Without repeated modifiers that is the value of the instruction's vector, and every sample that
     was ever accepted is assembled to the code it was seen with.
     */
    method BuildCode(vals: seq<int>, modi: seq<string>) returns (code: int)
      requires Valid() && insRepos != [] && |vals| == width && Known(insModiSet.Keys(), modi)
      ensures code == CountedValue(State(), solution, vals, modi).Floor
      ensures Distinct(modi) ==> code == ValueUnder(State(), solution, vals, modi).Floor
      ensures Distinct(modi) ==>
                forall i :: 0 <= i < |accepted| && accepted[i].vals == vals && accepted[i].modi == modi ==>
                code == accepted[i].code
    {
      TrainedColumn(width, State(), weights, solution);
      var pSol := weights.pSol.rows;
      var total := |pSol|;
      var inscode := SumValues(pSol, total - |vals|, vals);
      var modiPart := SumModifiers(pSol, modi);
      RationalSum(inscode, modiPart);
      SumIsValue(pSol, weights.fac, solution, State(), vals, modi, inscode, modiPart);
      code := FloorScaled(inscode + modiPart, weights.fac);
      if Distinct(modi) {
        CountedOnce(State(), solution, vals, modi);
        AcceptedCodes(width, State(), weights, solution, accepted, vals, modi, code);
      }
    }
  }

  /** What is accepted has an integral value, its code. */
  lemma AcceptedCodes(width: nat, e: Encoder, t: Weights, w: Vec, accepted: seq<Sample>, vals: seq<int>,
                      modi: seq<string>, code: int)
    requires Trained(width, e, t, w) && AllRemembered(width, e, accepted) && |vals| == width
    requires code == ValueUnder(e, w, vals, modi).Floor
    ensures forall i :: 0 <= i < |accepted| && accepted[i].vals == vals && accepted[i].modi == modi ==>
            code == accepted[i].code
  {
    forall i | 0 <= i < |accepted| && accepted[i].vals == vals && accepted[i].modi == modi
      ensures code == accepted[i].code
    {
      assert Remembers(width, e, accepted[i]);
      RememberedValue(width, e, t, w, accepted[i]);
    }
  }

  lemma RememberedValue(width: nat, e: Encoder, t: Weights, w: Vec, s: Sample)
    requires Trained(width, e, t, w) && Remembers(width, e, s)
    ensures ValueUnder(e, w, s.vals, s.modi) == s.code as real
  {
    TrainedColumn(width, e, t, w);
    assert Fits(e.Rows(), e.Codes(), w);
  }
}
