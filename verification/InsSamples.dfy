/** The encoder as a state machine. */
module InsSamples {
  /**
   Learning an encoding from samples, as a transition system: which samples the encoder takes on,
   and what every run keeps.
   */

  import opened LinearAlgebra
  import opened LinearSystems
  import opened NullSpaces

  /** The rows force all solutions to agree on the vector, and they give it the value `c`. */
  ghost predicate Pinned(m: Mat, b: Vec, v: Vec, c: real)
    requires IsMat(m, |v|) && |b| == |m|
  {
    && Determined(m, v)
    && forall w: Vec {:trigger Fits(m, b, w)} :: |w| == |v| && Fits(m, b, w) ==> Dot(v, w) == c
  }

  // ---------- Samples as vectors ----------

  datatype Sample = Sample(vals: seq<int>, modi: seq<string>, code: int)

  predicate Known(keys: seq<string>, modi: seq<string>) {
    forall i :: 0 <= i < |modi| ==> modi[i] in keys
  }

  predicate Distinct(keys: seq<string>) {
    forall i, j :: 0 <= i < j < |keys| ==> keys[i] != keys[j]
  }

  /** One column per known modifier: whether the sample has it. */
  function Flags(keys: seq<string>, modi: seq<string>): (v: Vec)
    ensures |v| == |keys| && forall i :: 0 <= i < |keys| ==> v[i] == if keys[i] in modi then 1.0 else 0.0
  {
    seq(|keys|, i requires 0 <= i < |keys| => if keys[i] in modi then 1.0 else 0.0)
  }

  function RealVec(vals: seq<int>): (v: Vec)
    ensures |v| == |vals| && forall i :: 0 <= i < |vals| ==> v[i] == vals[i] as real
  {
    seq(|vals|, i requires 0 <= i < |vals| => vals[i] as real)
  }

  /** Modifier flags, then values. */
  function SampleVec(keys: seq<string>, vals: seq<int>, modi: seq<string>): (v: Vec)
    ensures |v| == |keys| + |vals|
  {
    Flags(keys, modi) + RealVec(vals)
  }

  /** The modifier columns in use and the samples taken on. */
  datatype Encoder = Encoder(keys: seq<string>, repos: seq<Sample>)
  {
    function Rows(): (m: Mat)
      ensures |m| == |repos|
      ensures forall i :: 0 <= i < |repos| ==> m[i] == SampleVec(keys, repos[i].vals, repos[i].modi)
    {
      seq(|repos|, i requires 0 <= i < |repos| => SampleVec(keys, repos[i].vals, repos[i].modi))
    }

    function Codes(): (b: Vec)
      ensures |b| == |repos| && forall i :: 0 <= i < |repos| ==> b[i] == repos[i].code as real
    {
      seq(|repos|, i requires 0 <= i < |repos| => repos[i].code as real)
    }

    /** Every sample has `width` values and known modifiers. */
    ghost predicate Shaped(width: nat) {
      forall i :: 0 <= i < |repos| ==> |repos[i].vals| == width && Known(keys, repos[i].modi)
    }

    /** The weights explain every sample taken on. */
    ghost predicate Explains(width: nat, w: Vec)
      requires Shaped(width)
    {
      |w| == |keys| + width && Fits(Rows(), Codes(), w)
    }

    /** The samples taken on leave only one value for this instruction. */
    ghost predicate Forced(width: nat, vals: seq<int>, modi: seq<string>)
      requires Shaped(width)
    {
      |vals| == width && Determined(Rows(), SampleVec(keys, vals, modi))
    }

    /**
     The samples taken on leave only one value for this one, and it is the code it was seen with.
     */
    ghost predicate Reproduces(width: nat, s: Sample)
      requires Shaped(width)
    {
      && Known(keys, s.modi) && |s.vals| == width
      && Pinned(Rows(), Codes(), SampleVec(keys, s.vals, s.modi), s.code as real)
    }

    ghost predicate RowsIndependent(width: nat) {
      IsMat(Rows(), |keys| + width) && Independent(Rows(), |keys| + width)
    }

    /** What every run keeps. */
    ghost predicate Consistent(width: nat) {
      && Distinct(keys) && Shaped(width)
      && (keys == [] <==> repos == [])
      && RowsIndependent(width)
    }
  }

  // ---------- Steps ----------

  datatype Outcome = NewModi | NewVals | Verified | NewConflict | KnownConflict

  /** The outcomes that are expected: the sample is now explained. */
  predicate Accepted(o: Outcome) {
    o == NewModi || o == NewVals || o == Verified
  }

  /** The keys with the unseen modifiers appended in order of first occurrence. */
  function Expand(keys: seq<string>, modi: seq<string>): (r: seq<string>)
    ensures |keys| <= |r| && r[..|keys|] == keys
    decreases modi
  {
    if modi == [] then keys
    else Expand(if modi[0] in keys then keys else keys + [modi[0]], modi[1..])
  }

  /** One sample offered to the encoder. */
  ghost predicate Step(width: nat, e: Encoder, s: Sample, o: Outcome, e': Encoder) {
    && e.Shaped(width) && |s.vals| == width
    && if !Known(e.keys, s.modi) then
         o == NewModi && e' == Encoder(Expand(e.keys, s.modi), e.repos + [s])
       else
         // A first sample without modifiers is answered by an error, not by a step.
         && e.repos != []
         && if !e.Forced(width, s.vals, s.modi) then
           o == NewVals && e' == Encoder(e.keys, e.repos + [s])
         else
           && e' == e && o != NewModi && o != NewVals
           && (o == Verified <==> e.Reproduces(width, s))
  }

  // ---------- Expanding the modifier columns ----------

  lemma {:induction false} ExpandKeeps(keys: seq<string>, modi: seq<string>)
    requires Distinct(keys)
    ensures Distinct(Expand(keys, modi)) && Known(Expand(keys, modi), modi)
    ensures forall k :: k in Expand(keys, modi) <==> k in keys || k in modi
    decreases modi
  {
    if modi != [] {
      var keys' := if modi[0] in keys then keys else keys + [modi[0]];
      ExpandKeeps(keys', modi[1..]);
      assert modi == [modi[0]] + modi[1..];
    }
  }

  lemma ExpandStep(keys: seq<string>, modi: seq<string>, i: nat)
    requires i < |modi|
    ensures Expand(keys, modi[i..]) == Expand(keys + if modi[i] in keys then [] else [modi[i]], modi[i + 1..])
  {
    assert modi[i..][1..] == modi[i + 1..];
    assert keys + [] == keys;
  }

  lemma {:induction false} ExpandKnown(keys: seq<string>, modi: seq<string>)
    requires Known(keys, modi)
    ensures Expand(keys, modi) == keys
    decreases modi
  {
    if modi != [] {
      ExpandKnown(keys, modi[1..]);
    }
  }

  /** Expanding adds columns exactly when some modifier was unseen. */
  lemma ExpandGrowsIffUnknown(keys: seq<string>, modi: seq<string>)
    requires Distinct(keys)
    ensures |Expand(keys, modi)| > |keys| <==> !Known(keys, modi)
  {
    ExpandGrows(keys, modi);
    if Known(keys, modi) {
      ExpandKnown(keys, modi);
    }
  }

  /** A vector with `d` zero entries inserted at position `p`. */
  function Widen(v: Vec, p: nat, d: nat): (w: Vec)
    requires p <= |v|
    ensures |w| == |v| + d
  {
    v[..p] + Zeros(d) + v[p..]
  }

  /** A vector with `d` entries removed at position `p`. */
  function Narrow(z: Vec, p: nat, d: nat): (v: Vec)
    requires p + d <= |z|
    ensures |v| == |z| - d
  {
    z[..p] + z[p + d..]
  }

  lemma WidenDot(v: Vec, p: nat, d: nat, z: Vec)
    requires p <= |v| && |z| == |v| + d
    ensures Dot(Widen(v, p, d), z) == Dot(v, Narrow(z, p, d))
  {
    var a, b, c := z[..p], z[p..p + d], z[p + d..];
    assert z == (a + b) + c && v == v[..p] + v[p..];
    DotConcat(v[..p] + Zeros(d), v[p..], a + b, c);
    DotConcat(v[..p], Zeros(d), a, b);
    DotVanishes(Zeros(d), b);
    DotConcat(v[..p], v[p..], a, c);
  }

  /** The keys with others appended, all distinct. */
  ghost predicate Appends(keys: seq<string>, keys': seq<string>) {
    && Distinct(keys') && |keys| <= |keys'| && keys'[..|keys|] == keys
    && forall k :: k in keys ==> k in keys'
  }

  lemma ExpandGrows(keys: seq<string>, modi: seq<string>)
    requires Distinct(keys)
    ensures Appends(keys, Expand(keys, modi)) && Distinct(Expand(keys, modi)) && Known(Expand(keys, modi), modi)
    ensures !Known(keys, modi) ==> |Expand(keys, modi)| > |keys| && Expand(keys, modi)[|keys|] in modi
  {
    ExpandKeeps(keys, modi);
    var keys' := Expand(keys, modi);
    if !Known(keys, modi) {
      var i :| 0 <= i < |modi| && modi[i] !in keys;
      assert modi[i] in modi;
      assert keys'[..|keys|] == keys;
      var k := keys'[|keys|];
      assert forall l :: 0 <= l < |keys| ==> keys'[l] == keys'[..|keys|][l];
      assert forall l :: 0 <= l < |keys| ==> keys[l] != k;
      assert k in keys';
    }
  }

  /** New modifier columns are zero for samples that have none of the new modifiers. */
  lemma WidenSample(keys: seq<string>, keys': seq<string>, vals: seq<int>, modi: seq<string>)
    requires Appends(keys, keys') && Known(keys, modi)
    ensures SampleVec(keys', vals, modi) == Widen(SampleVec(keys, vals, modi), |keys|, |keys'| - |keys|)
    ensures Known(keys', modi)
  {
    var p, d := |keys|, |keys'| - |keys|;
    assert forall k :: 0 <= k < p ==> keys'[k] == keys'[..p][k];
    forall i | p <= i < p + d
      ensures keys'[i] !in modi
    {
      assert forall k :: 0 <= k < p ==> keys[k] != keys'[i];
    }
    assert Flags(keys', modi) == Flags(keys, modi) + Zeros(d);
    var v := SampleVec(keys, vals, modi);
    assert v[..p] == Flags(keys, modi) && v[p..] == RealVec(vals);
  }

  lemma WidenIndependent(a: Mat, aw: Mat, n: nat, p: nat, d: nat)
    requires IsMat(a, n) && IsMat(aw, n + d) && p <= n && Independent(a, n)
    requires |aw| == |a| && forall i :: 0 <= i < |a| ==> aw[i] == Widen(a[i], p, d)
    ensures Independent(aw, n + d)
  {
    forall y: Vec {:trigger Combine(y, aw, n + d)} | |y| == |aw| && Combine(y, aw, n + d) == Zeros(n + d)
      ensures y == Zeros(|aw|)
    {
      forall j | 0 <= j < n
        ensures Combine(y, a, n)[j] == 0.0
      {
        var j' := if j < p then j else j + d;
        assert Column(aw, j') == Column(a, j);
        assert Combine(y, aw, n + d)[j'] == 0.0;
      }
      UseIndependence(a, n, y);
    }
  }

  /** A row with an entry where all others have zeros is independent of them. */
  lemma FreshColumnIndependent(m: Mat, m': Mat, n: nat, v: Vec, p: nat)
    requires IsMat(m, n) && IsMat(m', n) && |v| == n && m' == m + [v] && Independent(m, n)
    requires p < n && v[p] == 1.0 && forall i :: 0 <= i < |m| ==> m[i][p] == 0.0
    ensures Independent(m', n)
  {
    var z := Zeros(n)[p := 1.0];
    forall i | 0 <= i < |m|
      ensures Dot(m[i], z) == 0.0
    {
      DotVanishes(m[i], z);
    }
    DotSingle(v, z, p);
    TimesOneLeft(1.0);
    IndependentExtend(m, m', n, v, z);
  }

  // ---------- What one step keeps ----------

  lemma RowsExtended(e: Encoder, s: Sample, e': Encoder)
    requires e' == Encoder(e.keys, e.repos + [s])
    ensures e'.Rows() == e.Rows() + [SampleVec(e.keys, s.vals, s.modi)]
  {
  }

  /** The rows of the samples taken on, seen with new modifier columns. */
  lemma RowsWidened(width: nat, e: Encoder, e': Encoder)
    requires e.Shaped(width) && e'.repos == e.repos
    requires Appends(e.keys, e'.keys)
    ensures forall i :: 0 <= i < |e.repos| ==>
              e'.Rows()[i] == Widen(e.Rows()[i], |e.keys|, |e'.keys| - |e.keys|)
  {
    forall i | 0 <= i < |e.repos|
      ensures e'.Rows()[i] == Widen(e.Rows()[i], |e.keys|, |e'.keys| - |e.keys|)
    {
      WidenSample(e.keys, e'.keys, e.repos[i].vals, e.repos[i].modi);
    }
  }

  /** New columns alone keep the rows independent. */
  lemma ColumnsKeepIndependence(width: nat, e: Encoder, e': Encoder)
    requires e.Shaped(width) && e.RowsIndependent(width) && e'.repos == e.repos
    requires Appends(e.keys, e'.keys)
    ensures e'.Shaped(width) && e'.RowsIndependent(width)
    ensures forall i, j :: 0 <= i < |e.repos| && |e.keys| <= j < |e'.keys| ==> e'.Rows()[i][j] == 0.0
  {
    forall i | 0 <= i < |e.repos|
      ensures Known(e'.keys, e.repos[i].modi)
    {
      WidenSample(e.keys, e'.keys, e.repos[i].vals, e.repos[i].modi);
    }
    RowsWidened(width, e, e');
    WidenIndependent(e.Rows(), e'.Rows(), |e.keys| + width, |e.keys|, |e'.keys| - |e.keys|);
  }

  /** A sample with a modifier that no other sample has keeps the encoder consistent. */
  lemma FreshModifierConsistent(width: nat, e: Encoder, s: Sample, e': Encoder, p: nat)
    requires Distinct(e.keys) && e.Shaped(width) && e.RowsIndependent(width)
    requires |s.vals| == width && Known(e.keys, s.modi) && p < |e.keys| && e.keys[p] in s.modi
    requires forall i :: 0 <= i < |e.repos| ==> e.Rows()[i][p] == 0.0
    requires e' == Encoder(e.keys, e.repos + [s])
    ensures e'.Consistent(width)
  {
    RowsExtended(e, s, e');
    FreshColumnIndependent(e.Rows(), e'.Rows(), |e.keys| + width, SampleVec(e.keys, s.vals, s.modi), p);
  }

  /** A sample with unseen modifiers keeps the encoder consistent. */
  lemma NewModiConsistent(width: nat, e: Encoder, s: Sample, e': Encoder)
    requires e.Consistent(width) && |s.vals| == width && !Known(e.keys, s.modi)
    requires e' == Encoder(Expand(e.keys, s.modi), e.repos + [s])
    ensures e'.Consistent(width)
  {
    ExpandGrows(e.keys, s.modi);
    var wide := Encoder(e'.keys, e.repos);
    ColumnsKeepIndependence(width, e, wide);
    FreshModifierConsistent(width, wide, s, e', |e.keys|);
  }

  /** A sample that is not determined keeps the encoder consistent. */
  lemma NewValsConsistent(width: nat, e: Encoder, s: Sample, e': Encoder)
    requires e.Consistent(width) && |s.vals| == width && Known(e.keys, s.modi) && e.repos != []
    requires !e.Forced(width, s.vals, s.modi) && e' == Encoder(e.keys, e.repos + [s])
    ensures e'.Consistent(width)
  {
    var v := SampleVec(e.keys, s.vals, s.modi);
    RowsExtended(e, s, e');
    UndeterminedIndependent(e.Rows(), e'.Rows(), |e.keys| + width, v);
  }

  /** A row that the others do not determine is independent of them. */
  lemma UndeterminedIndependent(m: Mat, m': Mat, n: nat, v: Vec)
    requires IsMat(m, n) && IsMat(m', n) && |v| == n && m' == m + [v] && Independent(m, n) && !Determined(m, v)
    ensures Independent(m', n)
  {
    var z: Vec :| |z| == |v| && InKernel(m, z) && Dot(v, z) != 0.0;
    IndependentExtend(m, m', n, v, z);
  }

  /** Every step keeps the encoder consistent: its rows stay independent. */
  lemma StepConsistent(width: nat, e: Encoder, s: Sample, o: Outcome, e': Encoder)
    requires e.Consistent(width) && Step(width, e, s, o, e')
    ensures e'.Consistent(width)
  {
    if o == NewModi {
      NewModiConsistent(width, e, s, e');
    } else if o == NewVals {
      NewValsConsistent(width, e, s, e');
    }
  }

  lemma RowPinned(m: Mat, b: Vec, i: nat)
    requires i < |m| && IsMat(m, |m[i]|) && |b| == |m|
    ensures Pinned(m, b, m[i], b[i])
  {
  }

  /** A further row keeps what is pinned. */
  lemma RowKeepsPinned(m: Mat, b: Vec, m': Mat, b': Vec, v: Vec, c: real)
    requires IsMat(m, |v|) && |b| == |m| && Pinned(m, b, v, c)
    requires |m'| == |b'| == |m| + 1 && IsMat(m', |v|) && m == m'[..|m|] && b == b'[..|m|]
    ensures Pinned(m', b', v, c)
  {
    assert forall i :: 0 <= i < |m| ==> m[i] == m'[i] && b[i] == b'[i];
    forall z: Vec {:trigger InKernel(m', z)} | |z| == |v| && InKernel(m', z)
      ensures Dot(v, z) == 0.0
    {
      assert InKernel(m, z);
    }
    forall w: Vec {:trigger Fits(m', b', w)} | |w| == |v| && Fits(m', b', w)
      ensures Dot(v, w) == c
    {
      assert Fits(m, b, w);
    }
  }

  /** Inserted zero columns keep what is pinned. */
  lemma ColumnsKeepPinned(m: Mat, m': Mat, b: Vec, v: Vec, c: real, p: nat, d: nat)
    requires IsMat(m, |v|) && |b| == |m| && Pinned(m, b, v, c) && p <= |v|
    requires |m'| == |m| && IsMat(m', |v| + d) && forall i :: 0 <= i < |m| ==> m'[i] == Widen(m[i], p, d)
    ensures Pinned(m', b, Widen(v, p, d), c)
  {
    var v' := Widen(v, p, d);
    forall z: Vec {:trigger InKernel(m', z)} | |z| == |v'| && InKernel(m', z)
      ensures Dot(v', z) == 0.0
    {
      WidenDots(m, m', p, d, z, v);
      assert InKernel(m, Narrow(z, p, d));
    }
    forall w: Vec {:trigger Fits(m', b, w)} | |w| == |v'| && Fits(m', b, w)
      ensures Dot(v', w) == c
    {
      WidenDots(m, m', p, d, w, v);
      assert Fits(m, b, Narrow(w, p, d));
    }
  }

  lemma WidenDots(m: Mat, m': Mat, p: nat, d: nat, z: Vec, v: Vec)
    requires |z| == |v| + d && p <= |v| && IsMat(m, |v|) && |m'| == |m| && IsMat(m', |z|)
    requires forall i :: 0 <= i < |m| ==> m'[i] == Widen(m[i], p, d)
    ensures forall i :: 0 <= i < |m| ==> Dot(m'[i], z) == Dot(m[i], Narrow(z, p, d))
    ensures Dot(Widen(v, p, d), z) == Dot(v, Narrow(z, p, d))
  {
    forall i | 0 <= i < |m|
      ensures Dot(m'[i], z) == Dot(m[i], Narrow(z, p, d))
    {
      WidenDot(m[i], p, d, z);
    }
    WidenDot(v, p, d, z);
  }

  /** A sample just taken on is reproduced. */
  lemma NewSampleReproduced(width: nat, e: Encoder, s: Sample, e': Encoder)
    requires e'.Shaped(width) && |s.vals| == width && Known(e'.keys, s.modi)
    requires e' == Encoder(e'.keys, e.repos + [s])
    ensures e'.Reproduces(width, s)
  {
    RowPinned(e'.Rows(), e'.Codes(), |e.repos|);
    assert e'.Rows()[|e.repos|] == SampleVec(e'.keys, s.vals, s.modi);
    assert e'.Codes()[|e.repos|] == s.code as real;
  }

  /** A reproduced sample stays reproduced when another sample is taken on. */
  lemma RowKeepsReproduced(width: nat, e: Encoder, s: Sample, e': Encoder, t: Sample)
    requires e.Shaped(width) && e'.Shaped(width) && e' == Encoder(e.keys, e.repos + [s])
    requires e.Reproduces(width, t)
    ensures e'.Reproduces(width, t)
  {
    RowsExtended(e, s, e');
    assert e.Codes() == e'.Codes()[..|e.repos|];
    RowKeepsPinned(e.Rows(), e.Codes(), e'.Rows(), e'.Codes(), SampleVec(e.keys, t.vals, t.modi), t.code as real);
  }

  lemma WidenedReproduced(width: nat, e: Encoder, e': Encoder, t: Sample, p: nat, d: nat)
    requires e.Shaped(width) && e'.Shaped(width) && e'.repos == e.repos && p == |e.keys| && p + d == |e'.keys|
    requires forall i :: 0 <= i < |e.repos| ==> e'.Rows()[i] == Widen(e.Rows()[i], p, d)
    requires SampleVec(e'.keys, t.vals, t.modi) == Widen(SampleVec(e.keys, t.vals, t.modi), p, d)
    requires Known(e'.keys, t.modi) && e.Reproduces(width, t)
    ensures e'.Reproduces(width, t)
  {
    assert e.Codes() == e'.Codes();
    ColumnsKeepPinned(e.Rows(), e'.Rows(), e.Codes(), SampleVec(e.keys, t.vals, t.modi), t.code as real, p, d);
  }

  /** A reproduced sample stays reproduced when modifier columns are inserted. */
  lemma ColumnsKeepReproduced(width: nat, e: Encoder, e': Encoder, t: Sample)
    requires e.Shaped(width) && e'.Shaped(width) && e'.repos == e.repos
    requires Appends(e.keys, e'.keys)
    requires e.Reproduces(width, t)
    ensures e'.Reproduces(width, t)
  {
    WidenSample(e.keys, e'.keys, t.vals, t.modi);
    RowsWidened(width, e, e');
    WidenedReproduced(width, e, e', t, |e.keys|, |e'.keys| - |e.keys|);
  }

  /** Every step keeps what is reproduced, and adds the sample it accepts. */
  lemma StepReproduces(width: nat, e: Encoder, s: Sample, o: Outcome, e': Encoder, t: Sample)
    requires e.Consistent(width) && e'.Consistent(width) && Step(width, e, s, o, e')
    ensures e.Reproduces(width, t) ==> e'.Reproduces(width, t)
    ensures Accepted(o) ==> e'.Reproduces(width, s)
  {
    if o == NewModi || o == NewVals {
      ExpandGrows(e.keys, s.modi);
      NewSampleReproduced(width, e, s, e');
      if e.Reproduces(width, t) {
        var wide := Encoder(e'.keys, e.repos);
        if o == NewModi {
          ColumnsKeepIndependence(width, e, wide);
          ColumnsKeepReproduced(width, e, wide, t);
        }
        RowKeepsReproduced(width, wide, s, e', t);
      }
    }
  }

  /** A consistent encoder that reproduces the sample. */
  ghost predicate Remembers(width: nat, e: Encoder, t: Sample) {
    e.Consistent(width) && e.Reproduces(width, t)
  }

  /** The same step, as a run uses it. */
  lemma StepRemembers(width: nat, e: Encoder, s: Sample, o: Outcome, e': Encoder, t: Sample)
    requires Step(width, e, s, o, e') && Remembers(width, e, t)
    ensures Remembers(width, e', t)
  {
    StepConsistent(width, e, s, o, e');
    StepReproduces(width, e, s, o, e', t);
  }

  lemma AcceptedRemembered(width: nat, e: Encoder, s: Sample, o: Outcome, e': Encoder)
    requires e.Consistent(width) && Step(width, e, s, o, e') && Accepted(o)
    ensures Remembers(width, e', s)
  {
    StepConsistent(width, e, s, o, e');
    StepReproduces(width, e, s, o, e', s);
  }

  // ---------- Whole runs ----------

  /** A run from the empty encoder. */
  ghost predicate IsRun(width: nat, states: seq<Encoder>, samples: seq<Sample>, outcomes: seq<Outcome>) {
    && |states| == |samples| + 1 && |outcomes| == |samples|
    && states[0] == Encoder([], [])
    && forall i :: 0 <= i < |samples| ==> Step(width, states[i], samples[i], outcomes[i], states[i + 1])
  }

  lemma EmptyConsistent(width: nat)
    ensures Encoder([], []).Consistent(width)
  {
    assert Encoder([], []).Rows() == [];
    assert Independent([], width);
  }

  /** In every state of every run the rows of the samples taken on are independent. */
  lemma {:induction false} RunConsistent(width: nat, states: seq<Encoder>, samples: seq<Sample>,
                                         outcomes: seq<Outcome>, i: nat)
    requires IsRun(width, states, samples, outcomes) && i < |states|
    ensures states[i].Consistent(width)
  {
    if i == 0 {
      EmptyConsistent(width);
    } else {
      RunConsistent(width, states, samples, outcomes, i - 1);
      StepConsistent(width, states[i - 1], samples[i - 1], outcomes[i - 1], states[i]);
    }
  }

  /** A sample accepted at any point of a run is reproduced exactly in every later state. */
  lemma {:induction false} RunReproduces(width: nat, states: seq<Encoder>, samples: seq<Sample>,
                                         outcomes: seq<Outcome>, i: nat, j: nat)
    requires IsRun(width, states, samples, outcomes) && i < j < |states| && Accepted(outcomes[i])
    ensures Remembers(width, states[j], samples[i])
  {
    var k := j - 1;
    if i == k {
      RunConsistent(width, states, samples, outcomes, k);
      AcceptedRemembered(width, states[k], samples[k], outcomes[k], states[k + 1]);
    } else {
      RunReproduces(width, states, samples, outcomes, i, k);
      StepRemembers(width, states[k], samples[k], outcomes[k], states[k + 1], samples[i]);
    }
  }

  // ---------- Deciding what is forced ----------

  /** An instruction is forced exactly when every explanation gives it the same value. */
  lemma ForcedMeansOneValue(width: nat, e: Encoder, w: Vec, vals: seq<int>, modi: seq<string>)
    requires e.Shaped(width) && e.Explains(width, w) && |vals| == width
    ensures e.Forced(width, vals, modi) <==>
            forall u: Vec :: e.Explains(width, u) ==>
              Dot(SampleVec(e.keys, vals, modi), u) == Dot(SampleVec(e.keys, vals, modi), w)
  {
    DeterminedIffForced(e.Rows(), e.Codes(), w, SampleVec(e.keys, vals, modi));
  }

  /** A forced sample is reproduced exactly when one explanation gives it its code. */
  lemma OneExplanationDecides(width: nat, e: Encoder, w: Vec, s: Sample)
    requires e.Shaped(width) && e.Explains(width, w)
    requires Known(e.keys, s.modi) && e.Forced(width, s.vals, s.modi)
    ensures e.Reproduces(width, s) <==> Dot(SampleVec(e.keys, s.vals, s.modi), w) == s.code as real
  {
    PinnedIff(e.Rows(), e.Codes(), w, SampleVec(e.keys, s.vals, s.modi), s.code as real);
  }

  lemma PinnedIff(m: Mat, b: Vec, x: Vec, v: Vec, c: real)
    requires |x| == |v| && IsMat(m, |v|) && |b| == |m| && Fits(m, b, x) && Determined(m, v)
    ensures Pinned(m, b, v, c) <==> Dot(v, x) == c
  {
    if Dot(v, x) == c {
      forall w: Vec {:trigger Fits(m, b, w)} | |w| == |v| && Fits(m, b, w)
        ensures Dot(v, w) == c
      {
        SolutionsAgree(m, b, w, x, v);
      }
    }
  }

  /** A consistent encoder has an explanation of all its samples. */
  lemma ConsistentExplained(width: nat, e: Encoder)
    requires e.Consistent(width)
    ensures exists w: Vec :: e.Explains(width, w)
  {
    var w := IndependentSolvable(e.Rows(), |e.keys| + width, e.Codes());
    assert e.Explains(width, w);
  }
}
