/** Register hazards and how they are found. */
module HazardGraph {
  /**
   The RAW/WAW/WAR hazard graph of one kernel, built by a one-pass forward dataflow over the
   control-flow graph with backward edges dropped, and its definition by execution paths.
   */

  import opened Wrappers
  import opened DecodedInstructions
  import opened ControlFlow

  datatype HazardType = RAW | WAW | WAR

  datatype HazardEdge = HazardEdge(producer: nat, consumer: nat, kind: HazardType, reg: Register)

  // ---------- Definition by paths ----------

  /** A path of the control-flow graph along which indices increase. */
  ghost predicate ForwardPath(succ: seq<seq<nat>>, path: seq<nat>) {
    && |path| >= 1
    && (forall k :: 0 <= k < |path| ==> path[k] < |succ|)
    && (forall k :: 0 <= k < |path| - 1 ==> path[k] < path[k + 1] && path[k + 1] in succ[path[k]])
  }

  /** The producer's access that a hazard of this kind is about: a write, or a read that does not also write. */
  ghost predicate Starts(instrs: seq<DecodedInstruction>, kind: HazardType, p: nat, r: Register)
    requires AllValid(instrs) && p < |instrs|
  {
    if kind == WAR then Reads(instrs[p], r) && !Writes(instrs[p], r) else Writes(instrs[p], r)
  }

  /** The consumer's access that a hazard of this kind is about. */
  ghost predicate Ends(instrs: seq<DecodedInstruction>, kind: HazardType, c: nat, r: Register)
    requires AllValid(instrs) && c < |instrs|
  {
    if kind == RAW then Reads(instrs[c], r) else Writes(instrs[c], r)
  }

  /** No instruction strictly after the start of the path, up to position `end`, writes `r`. */
  ghost predicate Clear(instrs: seq<DecodedInstruction>, path: seq<nat>, end: nat, r: Register)
    requires AllValid(instrs) && end <= |path|
    requires forall k :: 0 <= k < |path| ==> path[k] < |instrs|
  {
    forall k :: 1 <= k < end ==> !Writes(instrs[path[k]], r)
  }

  /** A forward path from `p` to `c` that meets no other write of `r` on the way. */
  ghost predicate HazardPath(instrs: seq<DecodedInstruction>, succ: seq<seq<nat>>, path: seq<nat>, e: HazardEdge)
    requires AllValid(instrs) && |succ| == |instrs|
  {
    && ForwardPath(succ, path)
    && |path| >= 2
    && path[0] == e.producer
    && path[|path| - 1] == e.consumer
    && Clear(instrs, path, |path| - 1, e.reg)
  }

  /** The definition of a hazard edge. */
  ghost predicate IsHazard(instrs: seq<DecodedInstruction>, succ: seq<seq<nat>>, e: HazardEdge)
    requires AllValid(instrs) && |succ| == |instrs|
  {
    && e.producer < |instrs|
    && e.consumer < |instrs|
    && Starts(instrs, e.kind, e.producer, e.reg)
    && Ends(instrs, e.kind, e.consumer, e.reg)
    && exists path :: HazardPath(instrs, succ, path, e)
  }

  // ---------- The same by dataflow equations ----------

  /** `path` carries the access of `p` to the end of instruction `i`. */
  ghost predicate LivePath(instrs: seq<DecodedInstruction>, succ: seq<seq<nat>>, path: seq<nat>, p: nat, i: nat,
                           r: Register)
    requires AllValid(instrs) && |succ| == |instrs|
  {
    && ForwardPath(succ, path)
    && path[0] == p
    && path[|path| - 1] == i
    && Clear(instrs, path, |path|, r)
  }

  ghost predicate LiveOut(instrs: seq<DecodedInstruction>, succ: seq<seq<nat>>, kind: HazardType, p: nat, i: nat,
                          r: Register)
    requires AllValid(instrs) && |succ| == |instrs|
  {
    && p < |instrs|
    && i < |instrs|
    && Starts(instrs, kind, p, r)
    && exists path :: LivePath(instrs, succ, path, p, i, r)
  }

  ghost predicate LiveIn(instrs: seq<DecodedInstruction>, succ: seq<seq<nat>>, kind: HazardType, p: nat, i: nat,
                         r: Register)
    requires AllValid(instrs) && |succ| == |instrs|
  {
    exists q :: 0 <= q < i && q < |succ| && i in succ[q] && LiveOut(instrs, succ, kind, p, q, r)
  }

  lemma ExtendPath(succ: seq<seq<nat>>, path: seq<nat>, c: nat)
    requires ForwardPath(succ, path) && c < |succ|
    requires path[|path| - 1] < c && c in succ[path[|path| - 1]]
    ensures ForwardPath(succ, path + [c])
  {
  }

  /** What leaves an instruction is what it starts itself and, unless it writes, what entered it. */
  lemma LiveOutEquation(instrs: seq<DecodedInstruction>, succ: seq<seq<nat>>, kind: HazardType, p: nat, i: nat,
                        r: Register)
    requires AllValid(instrs) && |succ| == |instrs| && Closed(succ) && i < |instrs|
    ensures LiveOut(instrs, succ, kind, p, i, r) <==>
            || (p == i && Starts(instrs, kind, i, r))
            || (!Writes(instrs[i], r) && LiveIn(instrs, succ, kind, p, i, r))
  {
    if LiveOut(instrs, succ, kind, p, i, r) {
      var path :| LivePath(instrs, succ, path, p, i, r);
      if |path| > 1 {
        var front := path[..|path| - 1];
        var q := path[|path| - 2];
        assert LivePath(instrs, succ, front, p, q, r);
        assert LiveOut(instrs, succ, kind, p, q, r);
      }
    }
    if p == i && Starts(instrs, kind, i, r) {
      assert LivePath(instrs, succ, [i], p, i, r);
    }
    if !Writes(instrs[i], r) && LiveIn(instrs, succ, kind, p, i, r) {
      var q :| 0 <= q < i && q < |succ| && i in succ[q] && LiveOut(instrs, succ, kind, p, q, r);
      var path :| LivePath(instrs, succ, path, p, q, r);
      ExtendPath(succ, path, i);
      assert LivePath(instrs, succ, path + [i], p, i, r);
    }
  }

  /** A hazard edge is an access that enters its consumer alive. */
  lemma HazardIsLiveIn(instrs: seq<DecodedInstruction>, succ: seq<seq<nat>>, e: HazardEdge)
    requires AllValid(instrs) && |succ| == |instrs| && Closed(succ)
    ensures IsHazard(instrs, succ, e) <==>
            && e.consumer < |instrs|
            && Ends(instrs, e.kind, e.consumer, e.reg)
            && LiveIn(instrs, succ, e.kind, e.producer, e.consumer, e.reg)
  {
    if IsHazard(instrs, succ, e) {
      var path :| HazardPath(instrs, succ, path, e);
      var q := path[|path| - 2];
      assert LivePath(instrs, succ, path[..|path| - 1], e.producer, q, e.reg);
      assert LiveOut(instrs, succ, e.kind, e.producer, q, e.reg);
    }
    if e.consumer < |instrs| && LiveIn(instrs, succ, e.kind, e.producer, e.consumer, e.reg) {
      var q :| 0 <= q < e.consumer && q < |succ| && e.consumer in succ[q]
               && LiveOut(instrs, succ, e.kind, e.producer, q, e.reg);
      var path :| LivePath(instrs, succ, path, e.producer, q, e.reg);
      ExtendPath(succ, path, e.consumer);
      assert HazardPath(instrs, succ, path + [e.consumer], e);
    }
  }

  lemma PathIncreases(succ: seq<seq<nat>>, path: seq<nat>, a: nat, b: nat)
    requires ForwardPath(succ, path) && a < b < |path|
    ensures path[a] < path[b]
  {
    if a + 1 < b {
      PathIncreases(succ, path, a, b - 1);
    }
  }

  /** Hazard edges point forward. */
  lemma HazardForward(instrs: seq<DecodedInstruction>, succ: seq<seq<nat>>, e: HazardEdge)
    requires AllValid(instrs) && |succ| == |instrs| && IsHazard(instrs, succ, e)
    ensures e.producer < e.consumer < |instrs|
  {
    var path :| HazardPath(instrs, succ, path, e);
    PathIncreases(succ, path, 0, |path| - 1);
  }

  // ---------- The construction ----------

  type RegSetMap = map<Register, set<nat>>

  function At(m: RegSetMap, r: Register): set<nat> {
    if r in m then m[r] else {}
  }

  function UnionInto(dst: RegSetMap, src: RegSetMap): (m: RegSetMap)
    ensures forall r :: At(m, r) == At(dst, r) + At(src, r)
  {
    map r | r in dst.Keys + src.Keys :: At(dst, r) + At(src, r)
  }

  /** `m` holds, for every register, exactly the instructions whose access is live before `i`. */
  ghost predicate DescribesIn(instrs: seq<DecodedInstruction>, succ: seq<seq<nat>>, kind: HazardType, i: nat,
                              m: RegSetMap)
    requires AllValid(instrs) && |succ| == |instrs|
  {
    forall r, p: nat :: p in At(m, r) <==> LiveIn(instrs, succ, kind, p, i, r)
  }

  ghost predicate DescribesOut(instrs: seq<DecodedInstruction>, succ: seq<seq<nat>>, kind: HazardType, i: nat,
                               m: RegSetMap)
    requires AllValid(instrs) && |succ| == |instrs|
  {
    forall r, p: nat :: p in At(m, r) <==> LiveOut(instrs, succ, kind, p, i, r)
  }

  /** `pred[s]` lists exactly the strictly earlier predecessors of `s` among the first `n` instructions. */
  ghost predicate IsForwardPred(succ: seq<seq<nat>>, pred: seq<seq<nat>>, n: nat)
    requires n <= |succ|
  {
    && |pred| == |succ|
    && forall s: nat, q: nat :: s < |succ| ==> (q in pred[s] <==> q < n && q < s && s in succ[q])
  }

  method ForwardPredecessors(succ: seq<seq<nat>>) returns (pred: seq<seq<nat>>)
    requires Closed(succ)
    ensures IsForwardPred(succ, pred, |succ|)
  {
    pred := seq(|succ|, _ => []);
    for i := 0 to |succ|
      invariant IsForwardPred(succ, pred, i)
    {
      ghost var before := pred;
      for k := 0 to |succ[i]|
        invariant |pred| == |succ|
        invariant forall s: nat, q: nat :: s < |succ| ==>
                    (q in pred[s] <==> q in before[s] || (q == i && q < s && s in succ[i][..k]))
      {
        var s := succ[i][k];
        assert s in succ[i];
        assert succ[i][..k + 1] == succ[i][..k] + [s];
        if s > i {
          pred := pred[s := pred[s] + [i]];
        }
      }
      assert succ[i][..|succ[i]|] == succ[i];
    }
  }

  ghost predicate Accurate(instrs: seq<DecodedInstruction>, accessesOf: seq<AccessMap>)
    requires AllValid(instrs)
  {
    && |accessesOf| <= |instrs|
    && (forall i, r :: 0 <= i < |accessesOf| ==> (MapReads(accessesOf[i], r) <==> Reads(instrs[i], r)))
    && (forall i, r :: 0 <= i < |accessesOf| ==> (MapWrites(accessesOf[i], r) <==> Writes(instrs[i], r)))
  }

  method AllAccesses(instrs: seq<DecodedInstruction>) returns (accessesOf: seq<AccessMap>)
    requires AllValid(instrs)
    ensures |accessesOf| == |instrs| && Accurate(instrs, accessesOf)
  {
    accessesOf := [];
    for i := 0 to |instrs|
      invariant |accessesOf| == i && Accurate(instrs, accessesOf)
    {
      var merged := RegisterAccessesOf(instrs[i]);
      accessesOf := accessesOf + [merged];
    }
  }

  /** The union of what leaves the predecessors. */
  method MergePredecessors(
    ghost instrs: seq<DecodedInstruction>, ghost succ: seq<seq<nat>>, ghost kind: HazardType,
    i: nat, pred: seq<nat>, out: seq<RegSetMap>) returns (m: RegSetMap)
    requires AllValid(instrs) && |succ| == |instrs| && i < |instrs| && |out| == i
    requires forall q: nat :: q in pred <==> q < i && i in succ[q]
    requires forall q :: 0 <= q < i ==> DescribesOut(instrs, succ, kind, q, out[q])
    ensures DescribesIn(instrs, succ, kind, i, m)
  {
    m := map[];
    for j := 0 to |pred|
      invariant forall r, p: nat :: p in At(m, r) <==>
                exists k :: 0 <= k < j && LiveOut(instrs, succ, kind, p, pred[k], r)
    {
      var q := pred[j];
      assert q in pred;
      m := UnionInto(m, out[q]);
    }
    forall r, p: nat
      ensures p in At(m, r) <==> LiveIn(instrs, succ, kind, p, i, r)
    {
      if LiveIn(instrs, succ, kind, p, i, r) {
        var q :| 0 <= q < i && q < |succ| && i in succ[q] && LiveOut(instrs, succ, kind, p, q, r);
        assert q in pred;
        var k :| 0 <= k < |pred| && pred[k] == q;
      }
      if p in At(m, r) {
        var k :| 0 <= k < |pred| && LiveOut(instrs, succ, kind, p, pred[k], r);
        assert pred[k] in pred;
      }
    }
  }

  /** One entry replaced. */
  function Put(m: RegSetMap, r: Register, s: set<nat>): (m': RegSetMap)
    ensures forall r' :: At(m', r') == if r' == r then s else At(m, r')
  {
    m[r := s]
  }

  /** The writers leaving an instruction, at one register. */
  function WritersAfter(i: nat, accesses: AccessMap, writeIn: RegSetMap, r: Register): set<nat> {
    if MapWrites(accesses, r) then {i} else At(writeIn, r)
  }

  /** The readers leaving an instruction, at one register: a write ends what was read before it. */
  function ReadersAfter(i: nat, accesses: AccessMap, readIn: RegSetMap, r: Register): set<nat> {
    if MapWrites(accesses, r) then {}
    else if MapReads(accesses, r) then At(readIn, r) + {i}
    else At(readIn, r)
  }

  /** The accesses outside `todo` have taken effect on the writers. */
  ghost predicate WritersDone(i: nat, accesses: AccessMap, writeIn: RegSetMap, todo: set<Register>, m: RegSetMap) {
    forall r :: At(m, r) == if r in todo then At(writeIn, r) else WritersAfter(i, accesses, writeIn, r)
  }

  ghost predicate ReadersDone(i: nat, accesses: AccessMap, readIn: RegSetMap, todo: set<Register>, m: RegSetMap) {
    forall r :: At(m, r) == if r in todo then At(readIn, r) else ReadersAfter(i, accesses, readIn, r)
  }

  lemma WritersStep(i: nat, accesses: AccessMap, writeIn: RegSetMap, todo: set<Register>, m: RegSetMap, r: Register)
    requires WritersDone(i, accesses, writeIn, todo, m) && r in todo && r in accesses
    ensures WritersDone(i, accesses, writeIn, todo - {r}, if accesses[r] != READ then Put(m, r, {i}) else m)
  {
  }

  lemma ReadersStep(i: nat, accesses: AccessMap, readIn: RegSetMap, todo: set<Register>, m: RegSetMap, r: Register)
    requires ReadersDone(i, accesses, readIn, todo, m) && r in todo && r in accesses
    ensures ReadersDone(i, accesses, readIn, todo - {r},
                        Put(m, r, if accesses[r] != READ then {} else At(m, r) + {i}))
  {
  }

  /** The effect of one instruction's own accesses on the live writers and readers. */
  method Transfer(i: nat, accesses: AccessMap, writeIn: RegSetMap, readIn: RegSetMap)
    returns (writeOut: RegSetMap, readOut: RegSetMap)
    ensures forall r :: At(writeOut, r) == WritersAfter(i, accesses, writeIn, r)
    ensures forall r :: At(readOut, r) == ReadersAfter(i, accesses, readIn, r)
  {
    writeOut, readOut := writeIn, readIn;
    var todo := accesses.Keys;
    while todo != {}
      invariant todo <= accesses.Keys
      invariant WritersDone(i, accesses, writeIn, todo, writeOut)
      invariant ReadersDone(i, accesses, readIn, todo, readOut)
    {
      var r :| r in todo;
      WritersStep(i, accesses, writeIn, todo, writeOut, r);
      ReadersStep(i, accesses, readIn, todo, readOut, r);
      if accesses[r] != READ {
        writeOut := Put(writeOut, r, {i});
        readOut := Put(readOut, r, {});
      } else {
        readOut := Put(readOut, r, At(readOut, r) + {i});
      }
      todo := todo - {r};
    }
  }

  function EdgesTo(producers: set<nat>, consumer: nat, kind: HazardType, r: Register): (es: set<HazardEdge>)
    ensures forall e :: e in es <==> e.consumer == consumer && e.kind == kind && e.reg == r && e.producer in producers
  {
    var es := set p | p in producers :: HazardEdge(p, consumer, kind, r);
    assert forall e: HazardEdge :: e == HazardEdge(e.producer, e.consumer, e.kind, e.reg);
    es
  }

  /** The edges into instruction `i`. */
  method EdgesInto(i: nat, accesses: AccessMap, writeIn: RegSetMap, readIn: RegSetMap) returns (es: set<HazardEdge>)
    ensures forall e :: e in es <==>
                        && e.consumer == i
                        && (if e.kind == RAW then MapReads(accesses, e.reg) else MapWrites(accesses, e.reg))
                        && e.producer in At(if e.kind == WAR then readIn else writeIn, e.reg)
  {
    es := {};
    var todo := accesses.Keys;
    while todo != {}
      invariant todo <= accesses.Keys
      invariant forall e :: e in es <==>
                            && e.reg !in todo
                            && e.consumer == i
                            && (if e.kind == RAW then MapReads(accesses, e.reg) else MapWrites(accesses, e.reg))
                            && e.producer in At(if e.kind == WAR then readIn else writeIn, e.reg)
    {
      var r :| r in todo;
      if accesses[r] != WRITE {
        es := es + EdgesTo(At(writeIn, r), i, RAW, r);
      }
      if accesses[r] != READ {
        es := es + EdgesTo(At(writeIn, r), i, WAW, r);
        es := es + EdgesTo(At(readIn, r), i, WAR, r);
      }
      todo := todo - {r};
    }
  }

  ghost predicate AllIn(instrs: seq<DecodedInstruction>, succ: seq<seq<nat>>, kind: HazardType, ms: seq<RegSetMap>)
    requires AllValid(instrs) && |succ| == |instrs|
  {
    forall k :: 0 <= k < |ms| ==> DescribesIn(instrs, succ, kind, k, ms[k])
  }

  ghost predicate AllOut(instrs: seq<DecodedInstruction>, succ: seq<seq<nat>>, kind: HazardType, ms: seq<RegSetMap>)
    requires AllValid(instrs) && |succ| == |instrs|
  {
    forall k :: 0 <= k < |ms| ==> DescribesOut(instrs, succ, kind, k, ms[k])
  }

  /** One node of the dataflow, for one kind of access. */
  method Step(instrs: seq<DecodedInstruction>, ghost succ: seq<seq<nat>>, pred: seq<seq<nat>>,
              accesses: AccessMap, i: nat,
              writeOut: seq<RegSetMap>, readOut: seq<RegSetMap>)
    returns (wIn: RegSetMap, rIn: RegSetMap, wOut: RegSetMap, rOut: RegSetMap)
    requires AllValid(instrs) && |succ| == |instrs| && Closed(succ) && i < |instrs|
    requires IsForwardPred(succ, pred, |succ|)
    requires forall r :: MapReads(accesses, r) <==> Reads(instrs[i], r)
    requires forall r :: MapWrites(accesses, r) <==> Writes(instrs[i], r)
    requires |writeOut| == |readOut| == i
    requires AllOut(instrs, succ, WAW, writeOut) && AllOut(instrs, succ, WAR, readOut)
    ensures DescribesIn(instrs, succ, WAW, i, wIn) && DescribesIn(instrs, succ, WAR, i, rIn)
    ensures AllOut(instrs, succ, WAW, writeOut + [wOut]) && AllOut(instrs, succ, WAR, readOut + [rOut])
  {
    wIn := MergePredecessors(instrs, succ, WAW, i, pred[i], writeOut);
    rIn := MergePredecessors(instrs, succ, WAR, i, pred[i], readOut);
    wOut, rOut := Transfer(i, accesses, wIn, rIn);
    TransferDescribesOut(instrs, succ, i, accesses, wIn, rIn, wOut, rOut);
  }

  /**
   Reaching writers and reaching readers before every instruction. One index-ascending pass
   suffices, because every predecessor has a smaller index.
   */
  method ReachingAccesses(instrs: seq<DecodedInstruction>, succ: seq<seq<nat>>, pred: seq<seq<nat>>,
                          accessesOf: seq<AccessMap>)
    returns (writeIn: seq<RegSetMap>, readIn: seq<RegSetMap>)
    requires AllValid(instrs) && |succ| == |instrs| && Closed(succ)
    requires IsForwardPred(succ, pred, |succ|)
    requires |accessesOf| == |instrs| && Accurate(instrs, accessesOf)
    ensures |writeIn| == |readIn| == |instrs|
    ensures AllIn(instrs, succ, WAW, writeIn) && AllIn(instrs, succ, WAR, readIn)
  {
    writeIn, readIn := [], [];
    var writeOut: seq<RegSetMap>, readOut: seq<RegSetMap> := [], [];
    for i := 0 to |instrs|
      invariant |writeIn| == |writeOut| == |readIn| == |readOut| == i
      invariant AllIn(instrs, succ, WAW, writeIn) && AllIn(instrs, succ, WAR, readIn)
      invariant AllOut(instrs, succ, WAW, writeOut) && AllOut(instrs, succ, WAR, readOut)
    {
      var wIn, rIn, wOut, rOut := Step(instrs, succ, pred, accessesOf[i], i, writeOut, readOut);
      writeIn, readIn := writeIn + [wIn], readIn + [rIn];
      writeOut, readOut := writeOut + [wOut], readOut + [rOut];
    }
  }

  /**
   The hazard graph: the computed edges are exactly the hazards of the path definition, and
   construction fails only when the control-flow graph does not resolve.
   */
  method BuildHazardGraph(instrs: seq<DecodedInstruction>) returns (r: Result<set<HazardEdge>, CfgError>)
    requires AllValid(instrs)
    ensures r.Success? <==> Resolves(instrs)
    ensures r.Failure? ==> IsFirstError(instrs, r.error)
    ensures r.Success? ==> forall e :: e in r.value <==> IsHazard(instrs, CfgOf(instrs), e)
  {
    if instrs == [] {
      return Success({});
    }
    var cfg := ComputeControlFlowSuccessors(instrs);
    if cfg.Failure? {
      return Failure(cfg.error);
    }
    var succ := cfg.value;
    var pred := ForwardPredecessors(succ);
    var accessesOf := AllAccesses(instrs);

    var writeIn, readIn := ReachingAccesses(instrs, succ, pred, accessesOf);
    var graph: set<HazardEdge> := {};
    for i := 0 to |instrs|
      invariant forall e :: e in graph <==> e.consumer < i && IsHazard(instrs, succ, e)
    {
      var es := EdgesInto(i, accessesOf[i], writeIn[i], readIn[i]);
      forall e: HazardEdge
        ensures e in es <==> e.consumer == i && IsHazard(instrs, succ, e)
      {
        EdgesAreHazards(instrs, succ, i, accessesOf[i], writeIn[i], readIn[i], e);
      }
      graph := graph + es;
    }
    return Success(graph);
  }

  /** Liveness depends on the kind of hazard only through the producer's access. */
  lemma RawLiveInIsWaw(instrs: seq<DecodedInstruction>, succ: seq<seq<nat>>, p: nat, i: nat, r: Register)
    requires AllValid(instrs) && |succ| == |instrs|
    ensures LiveIn(instrs, succ, RAW, p, i, r) <==> LiveIn(instrs, succ, WAW, p, i, r)
  {
    assert forall q :: LiveOut(instrs, succ, RAW, p, q, r) <==> LiveOut(instrs, succ, WAW, p, q, r);
  }

  lemma EdgesAreHazards(
    instrs: seq<DecodedInstruction>, succ: seq<seq<nat>>, i: nat, accesses: AccessMap,
    writeIn: RegSetMap, readIn: RegSetMap, e: HazardEdge)
    requires AllValid(instrs) && |succ| == |instrs| && Closed(succ) && i < |instrs|
    requires forall r :: MapReads(accesses, r) <==> Reads(instrs[i], r)
    requires forall r :: MapWrites(accesses, r) <==> Writes(instrs[i], r)
    requires DescribesIn(instrs, succ, WAW, i, writeIn) && DescribesIn(instrs, succ, WAR, i, readIn)
    ensures e.consumer == i && IsHazard(instrs, succ, e) <==>
            && e.consumer == i
            && (if e.kind == RAW then MapReads(accesses, e.reg) else MapWrites(accesses, e.reg))
            && e.producer in At(if e.kind == WAR then readIn else writeIn, e.reg)
  {
    HazardIsLiveIn(instrs, succ, e);
    RawLiveInIsWaw(instrs, succ, e.producer, i, e.reg);
  }

  lemma TransferDescribesOut(
    instrs: seq<DecodedInstruction>, succ: seq<seq<nat>>, i: nat, accesses: AccessMap,
    writeIn: RegSetMap, readIn: RegSetMap, writeOut: RegSetMap, readOut: RegSetMap)
    requires AllValid(instrs) && |succ| == |instrs| && Closed(succ) && i < |instrs|
    requires forall r :: MapReads(accesses, r) <==> Reads(instrs[i], r)
    requires forall r :: MapWrites(accesses, r) <==> Writes(instrs[i], r)
    requires DescribesIn(instrs, succ, WAW, i, writeIn) && DescribesIn(instrs, succ, WAR, i, readIn)
    requires forall r :: At(writeOut, r) == if MapWrites(accesses, r) then {i} else At(writeIn, r)
    requires forall r :: At(readOut, r) ==
                         if MapWrites(accesses, r) then {}
                         else if MapReads(accesses, r) then At(readIn, r) + {i}
                         else At(readIn, r)
    ensures DescribesOut(instrs, succ, WAW, i, writeOut)
    ensures DescribesOut(instrs, succ, WAR, i, readOut)
  {
    forall r, p: nat
      ensures p in At(writeOut, r) <==> LiveOut(instrs, succ, WAW, p, i, r)
      ensures p in At(readOut, r) <==> LiveOut(instrs, succ, WAR, p, i, r)
    {
      LiveOutEquation(instrs, succ, WAW, p, i, r);
      LiveOutEquation(instrs, succ, WAR, p, i, r);
    }
  }
}
